# pg-sqill `sync` in Dafny

pg-sqill is a command-line tool. It finds a PostgreSQL connection string and dumps the
public schema through `psql`. It then writes `.claude/skills/db/schema.sql` and a fixed
`SKILL.md` that points at it. This project models the decision and string-processing core
of `bin/sync.js` and proves what that core promises:

- `DotEnv` models the `DATABASE_URL=` regular expression as leftmost, then longest,
  matching. It is specified by a match relation `Accepts` and proved against it.
- `Connection` models `getConnectionString`: the environment value, then the three
  dotenv files in order. It is a method with a loop and an early return, proved
  against the specification functions `ConnectionString` and `ConnectionTrace`.
- `JsString` models `String.prototype.trim` over the full ECMAScript white-space and
  line-terminator set, and `split("\n")`.
- `Introspect` models the table-list parsing and `introspectSchema`. It is a method
  whose loop accumulates the schema text, proved against the function `Introspection`.
- `Cli` models `main`. It covers the dispatch on the first argument and the ordered
  steps of a sync with their exit status, plus the skill document.

The model has no I/O:

- The environment value is an `Option<string>` parameter.
- The working directory's files are a `map<string, string>` parameter.
- `psql` is an oracle `(connection, query) -> Option<string>`. `None` stands for
  `execSync` throwing.
- Each method returns, in order, what it asks of the outside world. `TryFiles` and
  `GetConnectionString` return their existence checks and reads as `Event`s.
  `IntrospectSchema` returns its client invocations as a sequence of `Query` values.
  `RunSync` turns those into `Event`s with `Io.PsqlEvents` and adds the mkdir and
  the writes. `Io.Apply` gives the files after the writes of a trace.

## Model

| member | source | states |
|---|---|---|
| DotEnv.ExtractUrl | bin/sync.js:22 | a captured value is non-empty and holds no `"`, `'` or newline |
| DotEnv.MatchesAtPosition | bin/sync.js:22 | at a given position the pattern either cannot match, or matches with one determined opening quote and a group no longer than the maximal run of value characters, which it attains |
| DotEnv.MatchFromIsLeftmostLongest | bin/sync.js:22 | scanning from `i` finds nothing exactly when no match starts at or after `i`; otherwise it returns the capture of the leftmost match with the longest group |
| DotEnv.ExtractUrlIsLeftmostLongest | bin/sync.js:22 | `match` gives null exactly when the pattern matches nowhere; otherwise group 1 of the leftmost, longest match |
| DotEnv.ExtractAssignment | bin/sync.js:22-24 | `DATABASE_URL=x`, `DATABASE_URL="x"` and `DATABASE_URL='x'` all yield `x` when the pattern matches at no earlier position, whatever follows the run |
| DotEnv.MatchAfterPrefix | bin/sync.js:22 | positions before `p` at which the pattern cannot match do not change the result |
| DotEnv.SkipsEmptyQuotedValue | bin/sync.js:22 | `DATABASE_URL=""` cannot match, since the group needs one character, so a later `DATABASE_URL=x` gives `x` |
| DotEnv.FiresInsideLongerName | bin/sync.js:22 | the match is unanchored: `MY_DATABASE_URL=secret` yields `secret` |
| DotEnv.FiresInsideComment | bin/sync.js:22 | a commented-out assignment still matches |
| DotEnv.KeepsCarriageReturn | bin/sync.js:22 | on a CRLF line the captured value keeps its trailing carriage return |
| Connection.FirstFileMatch | bin/sync.js:19-27 | a value found in a file is non-empty |
| Connection.TryFiles | bin/sync.js:19-27 | the loop's result and its file-system calls are the first non-skipped file's match, with existsSync on every file tried and readFileSync on the existing ones, stopping at the first match |
| Connection.Truthy | bin/sync.js:13 | a value is truthy exactly when it is present and non-empty |
| Connection.Step | bin/sync.js:20-21 | each file begins with an existence check, and a second call follows exactly when the file exists |
| Connection.ProbeTrace | bin/sync.js:19-26 | the search checks the first candidate first and makes at most two calls per file |
| Connection.ProbeAdvance | bin/sync.js:19-26 | a skipped file adds its calls and the search goes on with the rest; a file that is not skipped decides the result and ends the calls |
| Connection.ProbeOrder | bin/sync.js:20-21 | every read of a file comes right after its own existence check, and only for a file that exists |
| Connection.ConnectionString | bin/sync.js:11-30 | a truthy environment value is the result; a result is never empty |
| Connection.ConnectionTrace | bin/sync.js:11-30 | no file is consulted exactly when the environment value is truthy; otherwise only existence checks and reads of existing files are made |
| Connection.GetConnectionString | bin/sync.js:11-30 | a truthy environment value is returned unchanged with no file consulted; otherwise the files decide; a result is never empty |
| Connection.ProbeStep | bin/sync.js:19-26 | a missing file and a file without a match both move on to the next file; a matching file ends the search with its value |
| Connection.FirstMatchDecides | bin/sync.js:18-26 | when the first `k` files are skipped and file `k` is not, the result is file `k`'s value and nothing after it is looked at |
| Connection.NoMatchIsAbsence | bin/sync.js:29 | no value is found exactly when every candidate file is missing or has no match |
| Connection.ProbesOnlyRead | bin/sync.js:20-21 | resolution only checks existence and reads files that exist; it changes nothing |
| Connection.ResolutionOrder | bin/sync.js:11-30 | the environment first, then `.env`, `.env.local`, `.env.development`; a resolved value is non-empty; no file-system change |
| Connection.EmptyEnvFallsThrough | bin/sync.js:13-15 | an empty environment value behaves like an unset one and searches the files |
| JsString.Trim | bin/sync.js:39 | the result starts and ends with a non-white-space character, or is empty |
| JsString.TrimParts | bin/sync.js:39 | the input is white space, then the trimmed text, then white space; an empty trim means an all-white-space input |
| JsString.TrimUnique | bin/sync.js:39 | any trimmed middle between white-space runs is the trim |
| JsString.TrimIdempotent | bin/sync.js:39 | trimming twice is trimming once |
| JsString.TrimAround | bin/sync.js:39 | surrounding white space does not change the trim |
| JsString.TrimKeepsNewlineFree | bin/sync.js:39 | trimming a line gives no newline |
| JsString.Split | bin/sync.js:39 | `split("\n")` gives at least one piece and no piece holds a newline |
| JsString.JoinSplit | bin/sync.js:39 | joining the pieces with newlines gives back the input |
| JsString.SplitJoin | bin/sync.js:39 | splitting newline-free pieces joined by newlines gives back the pieces |
| JsString.SplitLine | bin/sync.js:39 | a newline-free string splits into itself |
| JsString.SplitAtNewline | bin/sync.js:39 | splitting `a + "\n" + b` is splitting `a` followed by splitting `b` |
| JsString.SplitAppendChar | bin/sync.js:39 | a non-newline character appended lands at the end of the last piece |
| Introspect.TrimAll | bin/sync.js:39 | `map(t => t.trim())` keeps the length and trims every line |
| Introspect.NonEmpty | bin/sync.js:39 | `filter(Boolean)` keeps only non-empty lines and never adds any |
| Introspect.NonEmptyKeepsLines | bin/sync.js:39 | every kept line is one of the input lines |
| Introspect.TrimAllAppend | bin/sync.js:39 | trimming each line distributes over concatenation of line lists |
| Introspect.TrimmedLines | bin/sync.js:39 | after split and per-line trim, every line is trimmed and newline-free |
| Introspect.NonEmptyAppend | bin/sync.js:39 | filtering distributes over concatenation, so order is kept |
| Introspect.ParseTables | bin/sync.js:39 | every parsed table name is non-empty, trimmed and newline-free |
| Introspect.OuterTrimRedundant | bin/sync.js:39 | the leading `trim()` does not change the parsed names |
| Introspect.CleanLeadingWhitespace | bin/sync.js:39 | leading white space does not change the parsed lines |
| Introspect.CleanTrailingWhitespace | bin/sync.js:39 | trailing white space does not change the parsed lines |
| Introspect.CleanLinesAppend | bin/sync.js:39 | the lines of `a + "\n" + b` are those of `a` followed by those of `b` |
| Introspect.ParseTablesAppend | bin/sync.js:39 | the names of two line blocks are the names of each, in order |
| Introspect.ParseTablesLine | bin/sync.js:39 | one line gives its trimmed text, or nothing if it is blank |
| Introspect.ParseJoinedNames | bin/sync.js:39 | non-blank, trimmed, newline-free names listed one per line parse back to the same names in the same order |
| Introspect.SectionsAppend | bin/sync.js:57 | the appended descriptions of two table lists are those of each, concatenated |
| Introspect.Sections | bin/sync.js:57 | no descriptions give no text; otherwise the text starts with a newline and has at least one character per description |
| Introspect.SectionsOne | bin/sync.js:57 | one description is appended as `"\n" + desc` |
| Introspect.DescribeQueries | bin/sync.js:52-56 | one describe query per table, in table order |
| Introspect.Descriptions | bin/sync.js:52-57 | one description per table, each the client's output for that table |
| Introspect.FirstFailure | bin/sync.js:52-56 | the tables before it were all described; the table at it, if any, failed |
| Introspect.IntrospectionQueries | bin/sync.js:35-56 | the table-name query comes first and the listing query second; a failed first query is the only one made |
| Introspect.QueryOrder | bin/sync.js:35-56 | every invocation after the first two is a describe query |
| Introspect.DescribePhaseQueries | bin/sync.js:52-56 | the describe queries follow the table order, at most one per table, and at least one when there are tables |
| Introspect.DescribeTables | bin/sync.js:52-60 | the loop issues the describe-phase queries; it fails at the first failing table, and otherwise yields the listing followed by every description |
| Introspect.NamesFailed | bin/sync.js:35-66 | a failed table-name query fails with the fixed message and nothing else runs |
| Introspect.ListingFailed | bin/sync.js:46-66 | a failed listing query fails with the fixed message and no table is described |
| Introspect.ListedIntrospection | bin/sync.js:46-66 | once the listing exists, the describe phase alone decides the outcome and the remaining invocations |
| Introspect.Introspection | bin/sync.js:32-67 | every failure is the one fixed error message |
| Introspect.IntrospectSchema | bin/sync.js:32-67 | the loop's result and its client invocations are `Introspection` and `IntrospectionQueries`; failure carries the fixed message |
| Introspect.DescriptionsStep | bin/sync.js:52-57 | describing one more table appends its description |
| Introspect.AppendSection | bin/sync.js:57 | `output += "\n" + desc` extends the accumulated schema by one section |
| Introspect.QueriesStep | bin/sync.js:52-56 | one more table issues one more describe query |
| Introspect.FirstFailureAt | bin/sync.js:52-65 | the loop stops at the first table whose description fails |
| Introspect.NoTablesShortCircuit | bin/sync.js:41-43 | no tables gives exactly "No tables found in public schema." and only the table-name query runs |
| Introspect.SuccessfulIntrospection | bin/sync.js:46-60 | on success the schema is the listing followed by `"\n" + desc(t)` for each table in order, and each table is described exactly once |
| Introspect.DescribePhaseStopsAtFailure | bin/sync.js:52-65 | every describe query but the last succeeded; the last failed exactly when a table failed |
| Introspect.DescribePhaseFailure | bin/sync.js:33-66 | once tables and listing exist, introspection fails exactly when the last query failed, all earlier ones succeeded |
| Introspect.FailureIsLastQuery | bin/sync.js:33-66 | introspection fails exactly when the last client invocation failed; every earlier one succeeded |
| Introspect.SectionsTwo | bin/sync.js:57-60 | two descriptions are appended as `"\n" + d1 + "\n" + d2` |
| Introspect.TwoTables | bin/sync.js:39-60 | a two-line table listing gives listing, then each description after a newline, with four client invocations in order |
| Introspect.ParseTwo | bin/sync.js:39 | two table names on two lines parse to those two names in order |
| Introspect.DescribeTwo | bin/sync.js:52-57 | two described tables give their two descriptions and two describe queries in order |
| Cli.SkillContent | bin/sync.js:69-96 | the skill document is the fixed head, the schema path, then the fixed tail |
| Cli.ParseCommand | bin/sync.js:99-127 | no argument, the empty string and `sync` select a sync; `help`, `--help` and `-h` select help; anything else is an unknown command carrying the argument |
| Cli.Writes | bin/sync.js:117-121 | the schema file is written first with the schema, then the skill file with the skill document |
| Cli.WritesMutate | bin/sync.js:117-121 | both writes change the file system |
| Cli.RunSync | bin/sync.js:101-125 | a missing connection string gives status 1 after only the resolution calls; otherwise mkdir, then the client invocations, then status 1 on failure, or the schema write, the skill write and status 0 |
| Cli.Run | bin/sync.js:98-150 | `sync` or no argument runs a sync; `help`, `--help`, `-h` give status 0 and do nothing; any other argument gives status 1 and does nothing |
| Cli.StepEffects | bin/sync.js:112-121 | mkdir and the client invocations change no file; the two writes set the schema file and the skill file, replacing what was there |
| Io.PsqlEventsDoNotMutate | bin/sync.js:35-56 | client invocations change no file |
| Cli.SyncEffects | bin/sync.js:104-121 | a missing connection leaves the files unchanged; a failed introspection leaves only the directory; a successful one changes exactly the two files |
| Cli.SkillDocumentIsFixed | bin/sync.js:69-96 | the skill document does not depend on the schema |

## Left out

- The `psql` command lines, their shell quoting and table-name injection (bin/sync.js:36, 47, 54) are not modelled. Each query is named by the `Query` datatype and answered by an oracle.
- The oracle is a function, so it answers the same query the same way twice. A database that changes during one run is not modelled.
- The stderr forwarding of a failed `psql` (bin/sync.js:62-64) is not modelled, and neither are any console messages, the help text (bin/sync.js:128-144) or the unknown-command message. Output is not state the core depends on.
- `process.exit(1)` and an uncaught exception both become the status 1 returned by `Run` and `RunSync`. Node.js exits with status 1 on an uncaught exception, so an introspection failure gives status 1 after the directory was created.
- `path.join` is not modelled: the schema and skill paths are constants, `.claude/skills/db/schema.sql` and `.claude/skills/db/SKILL.md`.
- File-system errors are not modelled: a dotenv path that is a directory, a read or write that throws, a failing `mkdirSync`. A file is present with its contents or absent, and mkdir and writes always succeed.
- Text is a sequence of Unicode scalar values. JavaScript strings are UTF-16, and decoding the dotenv files as UTF-8 is not modelled.
- Only `process.argv[2]` is looked at; later arguments are ignored, as in the source.
- Connection.TryFiles: it takes the list of file names as a parameter. `GetConnectionString` passes the three fixed names, as the loop at bin/sync.js:18-19 does.
- Cli.RunSync: the `!connectionString` check (bin/sync.js:105) is kept for the empty string. `Connection.ResolutionOrder` shows the empty string never reaches it.
