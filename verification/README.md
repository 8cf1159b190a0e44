# CustomTools network utilities in Dafny

This project models the logic core of CustomTools. CustomTools is a set of Python
utilities for network operators. The operators reach switches over SSH and keep the tools
themselves up to date. The model covers five parts:

- **Self-update** (`update.py`). Dotted version strings are compared component
  by component, with zero padding. A downloaded `versions.json` manifest is
  compared with the local one. The operator picks which updates to install:
  `none`, `all` or a comma-separated list of numbers. Successful installs are
  recorded in the local manifest. A 24-hour cache of the remote manifest is
  kept.
- **Credentials** (`credentials.py`). A two-line username/password file is
  read. A template is written when the file is missing. The result is
  validated.
- **Connection pool** (`main.py` `ConnectionManager` and
  `MainMenu.close_connection`). There is one SSH session per host, in
  insertion order. A pooled session is probed before it is reused. A dead
  session is evicted and reconnected. Sessions can be closed one at a time
  or all at once. Two copies of the pool are modelled against it:
  `LocalConnectionManager` of `BulkCommands/main.py` (no probe) and
  `get_ssh_connection` / `close_all_connections` of `FDBSearching/main.py`.
  `ConnectionPool.CloseAll` stands for all three close-all loops:
  `ConnectionManager.close_all` (`main.py`), `LocalConnectionManager.close_all`
  (`BulkCommands/main.py`) and `close_all_connections`
  (`FDBSearching/main.py`). Each attempts every close, ignores failures and
  empties the pool; only the first reports the hosts it closed.
- **Bulk commands** (`BulkCommands/main.py`). Reading a column from a CSV
  file, sanitising switch names into log file names, and turning a command's
  outcome into a success, an error or a failure. Per-switch and whole-run
  counters are kept.
- **Forwarding-database search** (`FDBSearching/main.py`). A 15-minute cache of
  each switch's FDB output. The camera inventory export is loaded. MAC
  addresses are compared after normalisation. MAC vendor prefixes (OUIs) are
  looked up in a text database. Mode 1 finds the port for a MAC; mode 2 finds
  the MAC candidates for a port.

Most of what lies outside the process is a parameter of the model:

- SSH connects, liveness probes and closes;
- command outcomes;
- the text of the files the tools read;
- whether `credentials.txt` exists and whether writing its template succeeds;
- whether each log append of a bulk run succeeds;
- the operator's answers;
- the current time.

The file-system failures that the model does not take as parameters are
named under "Left out".

Files:

| file | module | contents |
|---|---|---|
| `common.dfy` | `Common` | `Option`, `Result`, `Max` |
| `text.dfy` | `Text` | Python string semantics used by the tools: `strip`, `split`, `splitlines`, `split()`, `lower`, `replace`, `in`, `int()` |
| `versions.dfy` | `Versions` | `update.py` |
| `credentials.dfy` | `Credentials` | `credentials.py` |
| `pool.dfy` | `ConnectionPool` | the SSH connection pools of `main.py`, `BulkCommands/main.py` and `FDBSearching/main.py` |
| `bulk.dfy` | `BulkCommands` | `BulkCommands/main.py` |
| `fdb.dfy` | `FdbSearch` | `FDBSearching/main.py` |

Where a written description of the tools and the code disagree, the model
follows the code:

- Version components are read with Python's `int()`. So `" 2"` and `"+2"` parse,
  and a component `int()` rejects makes the comparison false.
- A command whose log append fails is counted twice by the code. This is
  modelled as written and then corrected (see Findings).

## Model

| member | source | states |
|---|---|---|
| Text.Trim | credentials.py:81 | `strip()` leaves no whitespace at either end. It never lengthens the text. It yields "" exactly for all-whitespace text. It leaves already-stripped text alone. |
| Text.TrimKeepsInner | credentials.py:81 | `strip()` never drops a character that is not whitespace. |
| Text.Split | update.py:184 | `split(sep)` gives at least one piece. No piece holds the separator. Text without the separator is one piece; text with it is two or more. |
| Text.JoinSplit | update.py:184 | Re-joining the pieces of `split(sep)` with `sep` gives back the original text. |
| Text.SplitJoin | update.py:184 | Splitting a join of separator-free pieces gives back exactly those pieces. |
| Text.Lines | credentials.py:81 | `splitlines()` pieces hold no line break. Only "" has no lines. |
| Text.TwoLines | credentials.py:81 | Two break-free texts, the second non-empty, joined by a line break, split into exactly those two lines. |
| Text.LinesAfterPiece | credentials.py:81 | A break-free first line splits off in front of the lines of the rest, when the rest does not end in a break. |
| Text.Words | FDBSearching/main.py:177 | `split()` tokens are non-empty and whitespace-free. There are none exactly for blank text. Text starting with a non-space starts its first token. |
| Text.WordsAfterWord | FDBSearching/main.py:177 | A word followed by nothing or by whitespace is one whole token, ahead of the tokens of what follows. |
| Text.WordsAfterBlank | FDBSearching/main.py:177 | Leading whitespace of any length yields no token. |
| Text.WordsAppend | FDBSearching/main.py:177 | With whitespace at the seam, the tokens of `a + b` are those of `a` followed by those of `b`. |
| Text.WordsOfWord | FDBSearching/main.py:177 | A single word is its own only token: `"ab".split() == ["ab"]`. |
| Text.WordsEndWith | FDBSearching/main.py:226 | Text ending in a word and then only whitespace has that word as its last token. |
| Text.Lower | FDBSearching/main.py:161 | `lower()` keeps the length and lower-cases each character in place. |
| Text.LowerIdempotent | FDBSearching/main.py:161 | Lower-casing twice equals lower-casing once. |
| Text.RemoveChar | FDBSearching/main.py:161 | `replace(c, '')` never lengthens the text. |
| Text.RemoveCharKeeps | FDBSearching/main.py:161 | A character survives `replace(c, '')` iff it was in the text and is not `c`. |
| Text.RemoveCharAbsent | FDBSearching/main.py:161 | Text without `c` is unchanged by `replace(c, '')`. |
| Text.RemoveCharAppend | FDBSearching/main.py:161 | Removing a character distributes over concatenation. |
| Text.LowerRemoveChar | FDBSearching/main.py:161 | Removing a non-letter and lower-casing commute. |
| Text.ContainsPrefix | FDBSearching/main.py:281 | Text containing `a + b` contains `a`. |
| Text.ReplaceChar | BulkCommands/main.py:148 | `replace(a, b)` keeps the length and substitutes exactly the positions holding `a`. |
| Text.ParseInt | update.py:184 | `int()` rejects blank text. |
| Text.ParseIntRejects | update.py:184 | `int()` rejects any text holding a character that is not whitespace, a sign or a digit. |
| Text.ParseIntDigits | update.py:184 | `int()` of a digit string is its decimal value. |
| Text.ParseIntNegative | update.py:184 | `int()` of `-` followed by a digit string is the negated decimal value. |
| Text.ParseIntShowNat | update.py:184 | `int()` reads back the decimal rendering of every natural. |
| Text.ParseIntShowInt | main.py:304 | `int()` reads back the decimal rendering of every integer. |
| Versions.ParseAll | update.py:184-185 | A version parses iff every dot-separated piece parses with `int()`. It then gives one integer per piece, each the piece's `int()` value. |
| Versions.ParseEach | update.py:184 | One `int()` result per piece, in order. |
| Versions.Collect | update.py:184 | The list comprehension succeeds iff no piece failed, and then keeps every value in order. |
| Versions.Pad | update.py:188-190 | Padding reaches the longer length, keeps the original components and appends zeros. |
| Versions.LexLessEqualLength | update.py:192 | Python's list `<` on equal-length lists holds iff the first differing component is smaller. |
| Versions.IsNewerVersionIff | update.py:181-194 | `is_newer_version(current, latest)` holds iff both versions parse and, zero-padded to a common length, `latest` is larger at the first differing component. |
| Versions.ParsedComparison | update.py:181-194 | Once both versions parse, `is_newer_version` is the list `<` of the two zero-padded lists. |
| Versions.MalformedIsNeverNewer | update.py:193-194 | A component `int()` rejects, in either version, makes the answer false in both directions. |
| Versions.LexLessIrreflexive | update.py:192 | No list is below itself. |
| Versions.LexLessAsymmetric | update.py:192 | List `<` never holds both ways. |
| Versions.LexLessTransitive | update.py:192 | List `<` is transitive. |
| Versions.LexLessAppendZero | update.py:188-192 | Appending a zero to both equal-length lists does not change their order. |
| Versions.PadInvariant | update.py:188-192 | Padding both lists further than the longer length does not change the comparison. |
| Versions.IsNewerVersionIrreflexive | update.py:181-194 | No version is newer than itself. |
| Versions.IsNewerVersionAsymmetric | update.py:181-194 | Two versions are never each newer than the other. |
| Versions.IsNewerVersionTransitive | update.py:181-194 | "Newer than" is transitive across versions of any lengths. |
| Versions.PaddedTransitive | update.py:188-192 | Zero-padded list `<` is transitive across lists of any lengths. |
| Versions.ComponentRoundTrip | update.py:184-185 | The decimal rendering of a natural holds no dot and reads back with `int()`. |
| Versions.ParseAllCons | update.py:184-185 | A version's first component parses independently of the rest. |
| Versions.ParseVersionSingle | update.py:184-185 | A dot-free text that `int()` reads as `n` is the one-component version `[n]`. |
| Versions.ParseVersionCons | update.py:184-185 | A dot-free first component followed by a dot and a version parses as that component followed by the version's components. |
| Versions.ParseFormatVersion | update.py:184-185 | Every dotted rendering of naturals parses back to exactly those naturals. |
| Versions.IsNewerVersionExamples | update.py:181-194 | "1.2.10" is newer than "1.2.3". "1.9.9" is not newer than "1.10.0". "1.2.0" is not newer than "1.2". |
| Versions.NewerExample | update.py:181-194 | "1.2.10" is newer than "1.2.3": components compare as numbers. |
| Versions.OlderExample | update.py:181-194 | "1.9.9" is not newer than "1.10.0". |
| Versions.PaddingExample | update.py:188-190 | "1.2.0" is not newer than "1.2": missing components count as zero. |
| Versions.NonNumericExample | update.py:193-194 | The one instance "abc" against "1.0.0": "abc" is not reported as older. The general fact is MalformedIsNeverNewer. |
| Versions.MalformedNeverOffered | update.py:169-176 | A tool whose installed or published version has a component `int()` rejects is never offered as an update. |
| Versions.CompareVersions | update.py:158-178 | Only remote tools are listed. A remote tool is listed iff its remote version is newer than the local one, or than "0.0.0" when it is not installed. Each entry records both versions. |
| Versions.CompareVersionsSound | update.py:169-176 | A tool at the same version locally and remotely is not offered. An offered update is never a downgrade. |
| Versions.Updatable | update.py:233-234 | `all` picks exactly the listed tools that have an update, in list order. |
| Versions.PickByNumber | update.py:236-243 | A tool is picked iff some typed number is a 1-based position in the list naming a tool with an update. There is at most one pick per number. |
| Versions.PicksMembers | update.py:236-243 | The loop over the typed numbers picks a tool iff some number names it and it has an update, with at most one pick per number. |
| Versions.PicksAppend | update.py:236-243 | The loop's picks for `a + b` are its picks for `a` followed by its picks for `b`. |
| Versions.PickByNumberAppend | update.py:236-243 | Typed numbers pick in order: the picks for `a + b` are the picks for `a` followed by the picks for `b`. |
| Versions.PickByNumberOne | update.py:237-242 | One number picks the tool at that 1-based position iff the position exists and the tool has an update, and nothing otherwise. |
| Versions.ChooseOnce | update.py:228-250 | `none` selects nothing. `all` selects every updatable listed tool. Every selected tool has an update and is listed. An empty selection comes only from `none` or `all`. Any other answer that is not a comma-separated list of integers re-prompts. A list of integers selects exactly its picks, and re-prompts iff it picks nothing. |
| Versions.Rounds | update.py:227-250 | One outcome per answer, each that answer's round of the prompt. |
| Versions.FirstChosen | update.py:227-250 | No result iff every round was sent back. A result is the selection of a settled round preceded only by sent-back rounds. |
| Versions.FirstChosenAt | update.py:227-250 | A settled round preceded only by sent-back rounds decides the result, whatever follows it. |
| Versions.SelectUpdates | update.py:197-250 | With no updates nothing is selected. Every selected tool has an update and is listed. No selection results only when every answer re-prompts. A selection is that of the first answer that does not re-prompt. |
| Versions.SelectUpdatesFirstSettled | update.py:227-250 | When answer `i` is the first that does not re-prompt, its selection is the result. |
| Versions.CopiedCount | update.py:276-289 | `success_count` is positive iff some tool folder was copied. |
| Versions.RecordVersions | update.py:296-299 | Each selected remote tool gets its remote version. Every other entry of the local manifest is unchanged. |
| Versions.InstallUpdatesAsWritten | update.py:268-306 | The result reports success iff a copy succeeded. With no copy the manifest is untouched. Otherwise every selected remote tool gets its remote version, copied or not, and every other entry is unchanged. |
| Versions.FailedCopyHiddenAsWritten | update.py:294-301 | A selected tool whose copy failed, installed beside one that succeeded, is no longer offered as an update. |
| Versions.CopiedTools | update.py:276-289 | A tool is listed iff one of its copies succeeded. |
| Versions.InstallUpdates | update.py:268-306 | Success iff a copy succeeded. Exactly the copied remote tools get their remote version. A tool that was not copied keeps its local entry. |
| Versions.InstallUpdatesKeepsFailedOffered | update.py:294-301 | After installing, a copied tool is no longer offered. A tool whose copy failed is offered exactly as before. |
| Versions.CopiedToolUpToDate | update.py:294-301 | After the corrected write-back, a copied tool is no longer offered. |
| Versions.FailedToolStillOffered | update.py:294-301 | After the corrected write-back, a tool none of whose copies succeeded is offered exactly as before. |
| Versions.LoadVersionsCache | update.py:45-64 | A cache is used only when it exists and is less than 24 hours old, measuring from time 0 when the timestamp is missing. A fresh cache's versions are returned. |
| Versions.CacheRoundTrip | update.py:45-77 | A saved manifest reads back exactly during the 24 hours after saving and not after. |
| Credentials.CreateTemplate | credentials.py:26-46 | An existing file is never touched. The template is written iff the file is missing and the write succeeds. |
| Credentials.ParseCredentials | credentials.py:79-96 | An accepted username and password are non-empty, stripped and single-line. Failure is too few lines or a blank field. |
| Credentials.LoadCredentials | credentials.py:49-101 | A missing file is a FileNotFoundError. The template is then written iff creation is allowed and succeeds. An unreadable file is a read failure. A readable file gives the parse result. Only a missing file changes. |
| Credentials.ValidateCredentials | credentials.py:104-109 | Valid iff both username and password are non-empty. |
| Credentials.LoadedCredentialsValid | credentials.py:88-109 | Whatever `load_credentials` returns passes `validate_credentials`. |
| Credentials.ParseFirstTwoLines | credentials.py:81-96 | On stripped text only the first two lines decide the outcome. |
| Credentials.CredentialsRoundTrip | credentials.py:81-96 | A file of a username line and a password line reads back as those two. |
| Credentials.ExtraLinesIgnored | credentials.py:81-89 | Lines after the password are ignored. |
| Credentials.TemplateParses | credentials.py:36-37 | The template reads back as the placeholders "username" / "password". |
| Credentials.BlankSecondLineRejected | credentials.py:91-94 | A blank password line is rejected even when more lines follow. |
| Credentials.SingleLineRejected | credentials.py:83-86 | Text with no line break after stripping is rejected as too few lines. |
| ConnectionPool.GetConnection | main.py:45-91 | A pooled host with a live probe returns its session and changes nothing. Otherwise the result is a session iff the connect succeeds. A new session is pooled last and a failed connect leaves the host out. Other hosts keep their sessions. |
| ConnectionPool.SecondAcquireReuses | main.py:60-88 | Right after a successful acquire, a second acquire with a live probe returns the same session and pool. |
| ConnectionPool.AcquireAfterCloseAll | main.py:73-91 | On an empty pool an acquire pools exactly the new session, or fails and leaves the pool empty. |
| ConnectionPool.ListConnections | main.py:93-95 | Lists every pooled host exactly once, one per session. |
| ConnectionPool.CloseAll | main.py:97-105 | The pool ends empty. Exactly the pooled hosts whose close succeeded are reported closed. |
| ConnectionPool.CloseConnection | main.py:107-115 | An absent host or a failed close leaves the pool as it was. Otherwise exactly that host is removed. |
| ConnectionPool.MenuCloseConnection | main.py:290-312 | Non-numeric or out-of-range input changes nothing, and so does a failed close. A valid 1-based number with a successful close removes exactly that listed host. |
| ConnectionPool.CloseByNumber | main.py:303-306 | A number outside 1 to the list length, or a failed close, leaves the pool alone. Otherwise exactly the numbered host's session is closed. |
| ConnectionPool.LocalGetConnection | BulkCommands/main.py:417-452 | A pooled session is returned without a probe. Otherwise the result is the main pool's acquire with a dead probe. |
| ConnectionPool.UnpackCredentials | FDBSearching/main.py:104-106 | Unpacking succeeds iff the stripped file has exactly two lines, which it returns. |
| ConnectionPool.FdbGetConnection | FDBSearching/main.py:81-117 | A live pooled session is reused. An unreadable or non-two-line credentials file is an error. A session is returned only when pooled, and an error leaves the host out. Other hosts keep their sessions. |
| ConnectionPool.FdbPoolAgreesWithManager | FDBSearching/main.py:81-117 | With a well-formed credentials file, the FDB tool's pool behaves as the main pool. |
| BulkCommands.LastIndex | BulkCommands/main.py:99-107 | With a repeated header name, `DictReader` keeps the last column: found iff the name is in the header, at its last position. |
| BulkCommands.RowsReachIff | BulkCommands/main.py:106-114 | Every non-empty row reaching the column is the condition for no `None` field. |
| BulkCommands.Cell | BulkCommands/main.py:106-109 | A row contributes its stripped cell unless the cell is blank. |
| BulkCommands.ColumnValues | BulkCommands/main.py:105-114 | Reading succeeds iff every non-empty row reaches the column; otherwise it is a missing-field error. |
| BulkCommands.CellsKeepNonBlank | BulkCommands/main.py:106-109 | Every non-blank cell of the column is among the values, stripped. |
| BulkCommands.RowsReachAppend | BulkCommands/main.py:106-114 | All rows of `a + b` reach the column iff those of `a` and of `b` do. |
| BulkCommands.CellsAppend | BulkCommands/main.py:105-109 | Values keep file order: the values of `a + b` are those of `a` then those of `b`. |
| BulkCommands.LoadCsvColumn | BulkCommands/main.py:81-119 | A missing column, a short row or no values is an error. A result is a non-empty list of stripped, non-blank values read from the last column of that name. |
| BulkCommands.DuplicateHeaderLastWins | BulkCommands/main.py:99-107 | With two `hostname` columns the second one is read. |
| BulkCommands.ShortRowFails | BulkCommands/main.py:106-114 | One non-empty row too short to reach the column makes the whole load fail. |
| BulkCommands.LoadInputs | BulkCommands/main.py:337-349 | The run starts iff both the hostname and the command column load. Both lists are then non-empty. |
| BulkCommands.SanitizeSwitchName | BulkCommands/main.py:148 | The log name keeps the length, has no `/`, `\` or `:`, and changes only those characters, each to `_`. |
| BulkCommands.SanitizeIdempotent | BulkCommands/main.py:148 | Sanitising twice equals sanitising once. A name without separators is unchanged. |
| BulkCommands.ExecuteCommand | BulkCommands/main.py:216-245 | Success iff the command completed, with its stdout and stderr. Otherwise there is no output. A timeout carries its fixed message. |
| BulkCommands.Classify | BulkCommands/main.py:282-293 | Success iff completed with empty stderr. Completed with errors iff completed with stderr. Failed iff not completed. |
| BulkCommands.ClassifyOutcome | BulkCommands/main.py:216-293 | A command is a success iff it completed with empty stderr, and a failure iff it did not complete. |
| BulkCommands.RunCommandsAsWritten | BulkCommands/main.py:276-303 | Commands run until the first whose log and fallback log both fail. Success and error counts together can exceed the command count. |
| BulkCommands.RunCommands | BulkCommands/main.py:276-303 | Commands run until the first unrecoverable log failure. Every run command is counted as exactly one success or one error. Successes are exactly the successful commands run. |
| BulkCommands.RunCommandsAgreeWhenLogged | BulkCommands/main.py:276-303 | When every log append succeeds, the as-written and corrected loops agree. |
| BulkCommands.ProcessSwitchAsWritten | BulkCommands/main.py:248-316 | No connection or no log header means a connection failure with zero counts. An uninterrupted switch counts every command. Success plus errors is at least the total. |
| BulkCommands.DoubleCountAsWritten | BulkCommands/main.py:282-303 | One successful command whose log append fails counts as one success and one error out of one command. |
| BulkCommands.ProcessSwitch | BulkCommands/main.py:248-316 | Success plus errors equals the total. A connection failure is reported iff the run was interrupted. An uninterrupted switch runs every command with the right success count. |
| BulkCommands.ProcessSwitchAgreesWhenLogged | BulkCommands/main.py:248-316 | When every log append succeeds, the as-written and corrected per-switch counts agree. |
| BulkCommands.FooterFailureReportedAsConnectionFailure | BulkCommands/main.py:305-316 | A failed footer write after all commands ran is reported as a connection failure, with every command counted. |
| BulkCommands.RunBulkAsWritten | BulkCommands/main.py:361-388 | The loop as written, with every switch's log directory creatable. Every switch is processed. Failures are the interrupted switches and the command total is the corrected one. Success and errors are the sums of the as-written per-switch counters; together they are at least the command total, which is at most every switch's commands. When every log append succeeds, they are the corrected sums. |
| BulkCommands.ProcessSwitchSameTotal | BulkCommands/main.py:248-316 | On every run, the as-written switch reports the corrected command total and failure flag; only the success and error counters differ. |
| BulkCommands.LoggedSwitchAgrees | BulkCommands/main.py:276-303 | On a run whose log appends all succeed, each switch is counted as the corrected loop counts it. |
| BulkCommands.RunBulk | BulkCommands/main.py:361-388 | The corrected tally, with every switch's log directory creatable. Every switch is processed. Failures are the interrupted switches. The command, success and error totals are the sums of the per-switch counters, and success plus errors equals the command total. That total lies between the surviving switches' commands and all switches' commands, and is the full product when no switch fails. |
| BulkCommands.CommandTotalBounds | BulkCommands/main.py:361-388 | Summed over switches, the commands counted lie between the uninterrupted switches' share and all switches' commands. |
| BulkCommands.TotalsBalance | BulkCommands/main.py:380-384 | Summed over switches with each command counted once, successes plus errors equal the commands counted. |
| BulkCommands.TotalsOvercount | BulkCommands/main.py:380-384 | Summed over switches as written, successes plus errors are at least the commands counted. |
| BulkCommands.FailureCountZero | BulkCommands/main.py:361-388 | When every switch runs uninterrupted, no connection failure is counted. |
| FdbSearch.GetFdbInfo | FDBSearching/main.py:37-78 | Cached output is served when fresh, or when stale and the operator does not answer `y`. Otherwise the fetch result is returned and, on success, cached with the current time. Other hosts' entries never change. |
| FdbSearch.CachedWithinWindow | FDBSearching/main.py:49-78 | Output just fetched is served from the cache, without a fetch, for the next 15 minutes. |
| FdbSearch.StaleRefreshOnlyOnYes | FDBSearching/main.py:61-65 | A stale entry is still served unless the answer lower-cases to `y`. |
| FdbSearch.CameraRows | FDBSearching/main.py:142-152 | Data rows yield at most one camera each, each with a non-empty server name. |
| FdbSearch.CameraRowsKeepsRow | FDBSearching/main.py:142-152 | Every row with a non-empty first cell yields its camera. |
| FdbSearch.CameraRowsFromRows | FDBSearching/main.py:142-152 | Every loaded camera comes from a row with a non-empty first cell. |
| FdbSearch.LoadCameras | FDBSearching/main.py:129-156 | An export too short to pass the header row yields no cameras. Every camera has a server name. |
| FdbSearch.LoadCamerasIff | FDBSearching/main.py:129-156 | A camera is loaded iff some row after the 30 skipped rows and the header row has a non-empty first cell and reads as that camera. |
| FdbSearch.NormalizeMac | FDBSearching/main.py:161 | A normalised MAC has no `:` or `-` and is no longer than the input. |
| FdbSearch.NormalizeMacPlain | FDBSearching/main.py:161 | A MAC with no `:` or `-` is only lower-cased. |
| FdbSearch.NormalizeMacChar | FDBSearching/main.py:161 | One character normalises to nothing when it is `:` or `-`, and otherwise to its lower-case form. |
| FdbSearch.NormalizeMacAppend | FDBSearching/main.py:161 | Normalisation distributes over concatenation; with NormalizeMacChar this fixes every output. |
| FdbSearch.NormalizeMacIdempotent | FDBSearching/main.py:161-165 | Normalising twice equals normalising once. |
| FdbSearch.NormalizeMacIgnoresCase | FDBSearching/main.py:161-165 | A MAC matches its lower-cased form. |
| FdbSearch.NormalizeMacIgnoresSeparators | FDBSearching/main.py:161-165 | A MAC matches itself with its colons, or its dashes, removed. |
| FdbSearch.RemoveCharCommutes | FDBSearching/main.py:161 | Removing colons and removing dashes commute. |
| FdbSearch.FindCameraByMac | FDBSearching/main.py:158-168 | No camera is found iff none matches after normalisation. A found camera is the first match. |
| FdbSearch.Oui | FDBSearching/main.py:172 | The prefix is the first six characters, or the whole text when shorter. |
| FdbSearch.OuiKeyIgnoresTail | FDBSearching/main.py:172 | Only the first six hex digits of a MAC matter for the vendor key. |
| FdbSearch.ScanDatabase | FDBSearching/main.py:174-181 | The prefix is not found iff no line is blank and no line's first token has it. Found means a line has it. An error means a blank line stopped the scan. |
| FdbSearch.ScanDatabaseOrder | FDBSearching/main.py:174-181 | Found means a line with the prefix comes before any blank line. An error means a blank line comes before any line with the prefix. |
| FdbSearch.ScanDatabaseFindsMatch | FDBSearching/main.py:174-180 | A line with the prefix and no blank line before it makes the scan report found. |
| FdbSearch.ScanDatabaseHitsBlank | FDBSearching/main.py:174-177 | A blank line with no line holding the prefix before it makes the scan fail. |
| FdbSearch.ScanDatabaseOutcome | FDBSearching/main.py:174-181 | Found iff a line with the prefix comes before any blank line. An error iff a blank line comes before any line with the prefix. |
| FdbSearch.CheckMacDatabase | FDBSearching/main.py:170-181 | `True` iff a line whose first token has the MAC's vendor prefix comes before any blank line. An IndexError iff a blank line comes before any such line. `False` otherwise. With no blank line, found iff some line has the prefix. |
| FdbSearch.SameOuiSameAnswer | FDBSearching/main.py:170-181 | Two MACs with the same first six hex digits get the same answer. |
| FdbSearch.LastMatch | FDBSearching/main.py:218-222 | No line holds the MAC, or the last line holding it is found. |
| FdbSearch.PortForMac | FDBSearching/main.py:213-226 | No matching line, or an empty last matching line, means no port. When the last matching line has tokens, the port is its last token. A non-empty whitespace-only last matching line, and only that, is an error. |
| FdbSearch.PortIsLastWord | FDBSearching/main.py:218-226 | When the last matching line ends in a word and then only whitespace, that word is the port, whatever precedes it. |
| FdbSearch.LastLineDecides | FDBSearching/main.py:218-222 | When the final line holds the MAC, it decides the port. |
| FdbSearch.LineCandidate | FDBSearching/main.py:281-289 | A line contributes its first token iff it contains the port text and that token looks like a MAC. |
| FdbSearch.Candidates | FDBSearching/main.py:279-289 | There is at most one candidate per line, each a MAC-looking token. |
| FdbSearch.CandidatesKeepLine | FDBSearching/main.py:279-289 | Every line containing the port with a MAC-looking first token contributes it. |
| FdbSearch.CandidatesFromLines | FDBSearching/main.py:279-289 | Every candidate is the MAC-looking first token of a line containing the port. |
| FdbSearch.PortCandidates | FDBSearching/main.py:276-289 | Candidates are MAC-looking tokens, at most one per output line. |
| FdbSearch.LongerPortLinesIncluded | FDBSearching/main.py:281 | The port test is a substring test. Every candidate for port "11" is a candidate for port "1". |

## Left out

- Text.Lower: lower-cases ASCII letters only. Python's Unicode case mapping is not modelled.
- Text.Lines: breaks lines at `\n` only. `splitlines()` also breaks at `\r`, `\r\n` and other Unicode line separators.
- Text.ParseInt: accepts ASCII digits only, without `_` separators. Python's `int()` also accepts underscores and non-ASCII decimal digits.
- Versions.LoadVersionsCache: times are whole seconds. The source uses floating-point `time.time()`.
- FdbSearch.GetFdbInfo: times are whole seconds, for the same reason.
- BulkCommands.RunBulk: every switch's log directory is assumed creatable. `get_log_file_path` (lines 134-158) creates it with `mkdir` at line 152, called at line 375 outside `process_switch`'s `try`. A failure there ends `run_bulk_commands`: the remaining switches are skipped, no summary is printed, and `main` exits at lines 484-486. This applies to BulkCommands.RunBulkAsWritten as well.
- FdbSearch.CheckMacDatabase: the database is passed as its text. A missing or undecodable `macdatabase.txt` makes `open` or the read raise at line 174. Nothing catches it, so the program ends; that path is not modelled.
- Versions.SelectUpdates: models a finite list of answers. The interactive loop re-prompts without bound. The "No tools found" message for an empty manifest is output only.
- Versions.InstallUpdatesAsWritten: the local manifest is a parameter. The source re-reads `versions.json` from disk before writing it back (line 295). A local manifest without a `"tools"` key, which raises `KeyError` at line 299, is not modelled. Writing `versions.json` back is assumed to succeed. `save_versions` (lines 110-116) catches a failed write and only prints it, and `update_tools` still returns `True` at line 306 while the file on disk keeps its old entries. The returned manifest is what the source meant to save. This applies to Versions.InstallUpdates as well.
- Versions.CompareVersions: manifests are modelled as their `"tools"` map. The JSON envelope and its other keys are left out.
- BulkCommands.LoadCsvColumn: rows arrive already tokenised. CSV quoting, encodings and the wrapped read error of lines 111-114 are not modelled. A short row's `None` is modelled as the `ValueError` it leads to.
- BulkCommands.ExecuteCommand: the execution time and the 30-second timeout value are not modelled; a timeout is an input outcome.
- BulkCommands.ProcessSwitch: whether the switch connected is an input rather than derived from a pool. Log file contents and formats are not modelled.
- FdbSearch.LoadCameras: rows arrive already tokenised. A CSV error part-way through the file keeps the cameras read so far; this partial list is not modelled.
- FdbSearch.PortForMac: the `exec_command` calls that fetch the output are inputs. The follow-up lookups in the camera list are not modelled.
- Downloading, zip extraction and folder copying in `update.py` are left out. They are I/O; the copy outcomes are inputs to the install.
- `update.py` `main()`, `check_for_updates` and the `--check-only` mode are left out. They are orchestration and printing.
- `integrated.py`, the `MainMenu` screens other than closing a connection, and `ToolRunner` are left out. They are process launching and menus.
- `ensure_csv_files` and its templates, `get_logs_dir`, and the log writers are left out. They are file creation and formatting.
- The mode 1 and mode 2 menu loops of `FDBSearching/main.py` are left out. They are interactive loops around the modelled steps.
- Printing, colours and `input()` prompts are left out; answers are parameters.
- Paramiko's SSH protocol, `exec_command` and socket timeouts are left out. They are foreign calls, modelled only by their success or failure.

## Findings

| source | as written | input that shows it | evidently intended | confidence | as-written member | corrected member |
|---|---|---|---|---|---|---|
| update.py:294-301 | Once any copy succeeds, every selected tool present in the remote manifest is recorded at its remote version, including tools whose copy failed or whose folder was missing from the download. | Select tools A and B, both with updates. A's copy succeeds and B's copy fails. B is recorded at the new version and is no longer offered, though its old files remain. | Only the tools actually copied are recorded at the new version. | not executed; high | Versions.InstallUpdatesAsWritten, Versions.FailedCopyHiddenAsWritten | Versions.InstallUpdates, Versions.InstallUpdatesKeepsFailedOffered |
| BulkCommands/main.py:276-303 | A command is counted as a success or an error when classified. If the log append that follows raises, the `except` branch counts it again as an error. The run's `overall_stats` sum these counts. | One switch, one command that completes with empty stderr. Its log append fails and the fallback log line succeeds. The result is total 1, success 1, errors 1. | Each command is counted once, so success plus errors equals total. | not executed; high | BulkCommands.ProcessSwitchAsWritten, BulkCommands.DoubleCountAsWritten, BulkCommands.RunBulkAsWritten | BulkCommands.ProcessSwitch, BulkCommands.ProcessSwitchAgreesWhenLogged, BulkCommands.RunBulk |
