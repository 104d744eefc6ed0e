# DataPipeline dashboard: the pipeline core, modelled in Dafny

The DataPipeline dashboard is a single React component. It loads a CSV file
as a table of string-keyed rows, lets the user build an ordered list of
steps (filter, calculate, chart), and runs those steps over a copy of the
table. This project models the logic inside that component and proves
properties about it:

- **Types** (`types.dfy`). `DataRow` is `map<string, string>`. A
  `PipelineStep` has an `id`, a kind (`Filter | Calculate | Chart`) and a
  `StepConfig`. A config key the object does not have is `None`.
- **Editor** (`editor.dfy`). `addStep`, `removeStep` and `updateStepConfig`
  are functions from the current step list to the next one. The host stores
  the result with `setPipeline`. `addStep` is given the new id as a
  parameter (the dashboard reads it from the clock).
- **Runner** (`runner.dfy`). `runPipeline` is a method whose `while` loop
  goes over the steps, like the source's `forEach`. It is proved equal to
  `Run`, a fold over the steps. Only a filter step whose column and value
  are both non-empty changes the rows. It keeps the rows whose cell at that
  column exists and contains the value, ignoring ASCII case. A calculate
  step only logs an average. A chart step has no branch.
- **Csv** (`csv.dfy`). This is the parse inside the upload handler. The
  text is split at `'\n'` and each line at `','`. The first line gives the
  column names. A later line becomes a row only when it has as many fields
  as there are names. A row maps each trimmed name to its trimmed field.
  The `headers.forEach` that fills one row is the method `BuildRow`, whose
  loop is proved equal to the function `RowOf`.
- **Text** (`text.dfy`) and **Seqs** (`seqs.dfy`) model the JavaScript
  built-ins used above: `trim` (with ECMAScript's exact set of white-space
  and line-terminator characters), `split` on one character together with
  its inverse `join`, ASCII `toLowerCase`, `includes`, and
  `Array.prototype.filter`. `filter` is characterised as the unique
  subsequence that keeps exactly the passing elements.

In `src/App.tsx` there are no filter or average messages, no chart
bucketing and no chart-visibility flag. A calculate step computes its
average (NaN when no cell is numeric) and writes it to the console, and a
chart step does nothing.

## Model

| member | source | states |
|---|---|---|
| `Seqs.Filter` | src/App.tsx:71-73 | `filter` never returns more elements than it got, and every element it returns came from the input and passes the test |
| `Seqs.FilterIsSubsequence` | src/App.tsx:71-73 | the result of `filter` is a subsequence of its input: elements are only deleted, never reordered |
| `Seqs.FilterMultiset` | src/App.tsx:71-73 | every element that passes the test survives as many times as it occurs; no other element survives |
| `Seqs.FilterUnique` | src/App.tsx:71-73 | any subsequence of the input with exactly that content is the result of `filter`, so the two lemmas above pin the result down completely |
| `Seqs.FilterIdempotent` | src/App.tsx:71-73 | filtering twice with the same test is filtering once |
| `Seqs.FilterFusion` | src/App.tsx:69-73 | two filters in a row equal one filter by the conjunction of their tests |
| `Seqs.FilterConcat` | src/App.tsx:62 | filtering a concatenation is the concatenation of the filtered parts |
| `Text.Trim` | src/App.tsx:39 | `trim` never lengthens its input and leaves no white space at either end; TrimShape shows it keeps the contiguous run between the leading and trailing white space |
| `Text.TrimStartShape` | src/App.tsx:39 | the start-trim removes exactly the longest all-space prefix |
| `Text.TrimEndShape` | src/App.tsx:39 | the end-trim removes exactly the longest all-space suffix |
| `Text.TrimShape` | src/App.tsx:39 | `trim` returns a contiguous run of its input, removes only white space from both ends, and leaves no white space at either end |
| `Text.TrimIdempotent` | src/App.tsx:39 | trimming twice is trimming once |
| `Text.LowerString` | src/App.tsx:72 | lower-casing keeps the length, moves each ASCII capital to its small letter, and keeps every other character |
| `Text.Includes` | src/App.tsx:72 | `includes` is true exactly when the needle occurs in the haystack as a contiguous run at some index |
| `Text.Split` | src/App.tsx:33 | `split` always returns at least one piece, and no piece contains the separator |
| `Text.JoinSplit` | src/App.tsx:33 | joining the pieces of a split with the separator gives back the original text |
| `Text.SplitJoin` | src/App.tsx:33 | splitting the join of separator-free pieces gives back the pieces |
| `Editor.AddStep` | src/App.tsx:51-57 | the pipeline grows by one step, placed last, with the given id and type and an empty config; every earlier step is unchanged and in the same order; the id set gains the new id |
| `Editor.AddStepKeepsUnique` | src/App.tsx:51-57 | adding a step whose id is not yet used keeps all ids distinct |
| `Editor.RemoveAfterAdd` | src/App.tsx:51-62 | removing a freshly added step's id gives back the pipeline from before the addition |
| `Editor.RemoveStep` | src/App.tsx:61-62 | the result is exactly the input steps whose id differs, in their original order, and the id set loses that id |
| `Editor.RemoveAbsent` | src/App.tsx:61-62 | removing an id that no step has returns the pipeline unchanged |
| `Editor.RemoveIdempotent` | src/App.tsx:61-62 | removing the same id twice is removing it once |
| `Editor.FilterKeepsUnique` | src/App.tsx:62 | filtering a pipeline with distinct ids keeps the ids distinct and adds no id |
| `Editor.RemoveOneStep` | src/App.tsx:61-62 | when ids are distinct and the id is present, exactly one step is removed |
| `Editor.RemoveKeepsUnique` | src/App.tsx:61-62 | removing a step keeps the ids distinct |
| `Editor.Merge` | src/App.tsx:87 | in the merged config, a key the patch has takes the patch's value and a key it lacks keeps the old value |
| `Editor.UpdateStepConfig` | src/App.tsx:85-88 | length and order are kept; every step keeps its id and type; steps with another id are untouched; a matching step's config becomes the old config merged with the patch |
| `Editor.MergeTwice` | src/App.tsx:87 | merging patch `a` and then patch `b` equals merging `b` over `a` once; merging the same patch twice equals merging it once; an empty patch changes nothing |
| `Editor.UpdateKeepsIds` | src/App.tsx:85-88 | an update never changes which ids the pipeline holds, so distinct ids stay distinct |
| `Editor.UpdateNoop` | src/App.tsx:85-88 | an update for an id that no step has, or with an empty patch, changes nothing |
| `Editor.UpdateTwice` | src/App.tsx:85-88 | two updates of the same id equal one update with the two patches merged |
| `Editor.RemoveAfterUpdate` | src/App.tsx:61-62 | removing an id undoes any earlier update of that id |
| `Runner.ApplyStep` | src/App.tsx:70-78 | one loop pass yields a subsequence of the current rows, every row it keeps is kept by that step, and any step other than a filter with a non-empty column and a non-empty value leaves the rows unchanged |
| `Runner.Run` | src/App.tsx:67-79 | the rows after the loop are never more than the loaded ones, and every row left comes from the table and is kept by every step; RunIsFilter shows that exactly those rows remain, in order |
| `Runner.RunPipeline` | src/App.tsx:66-82 | the loop computes the fold `Run` of the steps over the loaded table; the result is a subsequence of the table and holds exactly the rows that every step keeps, each as often as in the table |
| `Runner.RunIsFilter` | src/App.tsx:67-79 | a whole run is a single filter of the loaded table: a row is kept exactly when every step keeps it |
| `Runner.RunExact` | src/App.tsx:67-79 | the output of a run is an order-preserving subsequence of the input, never longer, and its content is exactly the rows every step keeps |
| `Runner.RunDependsOnActiveFilters` | src/App.tsx:69-79 | two pipelines with the same configured filter steps give the same rows, regardless of step order, repeated steps, or any calculate, chart or unconfigured filter steps |
| `Runner.RunWithoutFilters` | src/App.tsx:67-81 | a pipeline with no configured filter, including the empty pipeline, yields `processedData == data` |
| `Runner.OtherStepsKeepRows` | src/App.tsx:74-78 | calculate and chart steps never change the current rows |
| `Runner.RowMatches` | src/App.tsx:72 | a row matches exactly when it has the column and the lower-cased value occurs as a contiguous run in the lower-cased cell |
| `Runner.ApplyStepIdempotent` | src/App.tsx:70-73 | applying the same step twice gives the same table as applying it once |
| `Runner.RunAppend` | src/App.tsx:69-79 | running `p` and then `q` on its output equals running `p` followed by `q`: each step consumes the previous step's output |
| `Runner.FilterStepExact` | src/App.tsx:70-73 | a configured filter keeps, in order, exactly the rows whose cell at the column exists and contains the value (ignoring ASCII case); every kept row has the column |
| `Runner.FilterStepUnique` | src/App.tsx:71-73 | any order-preserving selection of the input with that content is the filter's output |
| `Runner.FilterIgnoresCase` | src/App.tsx:72 | a `Dept` filter for `eng` keeps both `Eng` rows of a three-row table and drops the `Sales` row |
| `Csv.Lines` | src/App.tsx:33 | there is one field list per '\n'-separated line, and at least one line |
| `Csv.DataLines` | src/App.tsx:35 | there are at most as many data lines as lines after the header, and each is one of those lines with exactly as many fields as there are columns; ParseCsvRows adds order and multiplicity |
| `Csv.FieldValue` | src/App.tsx:39 | the value stored for column `index`: its trimmed field, or '' when the line is shorter; RowOfContents states where it lands in the row |
| `Csv.BuildRow` | src/App.tsx:37-40 | the `forEach` loop builds the row `RowOf`: its keys are the trimmed column names, and under each name sits the trimmed field of the last column with that trimmed name |
| `Csv.RowOf` | src/App.tsx:36-41 | the row one data line becomes; RowOfContents gives its keys and values and BuildRow shows the `forEach` loop computes it |
| `Csv.RowOfContents` | src/App.tsx:36-41 | a row's keys are exactly the trimmed header names; a name is bound to the trimmed field of its last column, or to '' when the line has no such field |
| `Csv.RowOfKeys` | src/App.tsx:38-39 | a row's key set is the set of trimmed header names |
| `Csv.RowOfValue` | src/App.tsx:38-39 | the last column with a given trimmed name decides that key's value |
| `Csv.ParseCsv` | src/App.tsx:33-42 | there is one row per data line, never more rows than lines after the header, and every row's keys are the trimmed header names |
| `Csv.ParseCsvRows` | src/App.tsx:33-42 | data lines are the lines after the first whose field count equals the header count, in line order and with multiplicity; the value of row `i` under each header is the trimmed field of data line `i` |
| `Csv.SplitText` | src/App.tsx:33 | splitting CSV text built from separator-free fields at '\n' gives back its joined lines |
| `Csv.SplitJoinedLine` | src/App.tsx:33 | splitting one joined data line at ',' gives back its fields |
| `Csv.LinesOfText` | src/App.tsx:33-34 | splitting that text into lines and fields gives back the header line and the data lines |
| `Csv.ParseCsvText` | src/App.tsx:33-42 | parsing the text of a header line and data lines of matching width gives one row per data line, in order, each built from that line |
| `Csv.SplitAppendSep` | src/App.tsx:33 | text ending in the separator splits into one more piece, the empty one |
| `Csv.DataLinesTrailing` | src/App.tsx:33-35 | a trailing newline keeps the header and adds the data line `[""]` exactly when there is one column |
| `Csv.TrailingNewline` | src/App.tsx:33-35 | a trailing newline adds no row, except when the file has a single column; then it adds a row whose only value is '' |

## Left out

- Browser I/O and UI are not modelled: the `FileReader`, the `text/csv` type check, `setFile`, `setData`, `setProcessedData` and the JSX rendering (src/App.tsx:25-31, 43-47, 91-266). The model's functions return the values that these state setters would store.
- The average of a calculate step is not modelled: `parseFloat`, the floating-point sum and division, `toFixed(2)` and `console.log` (src/App.tsx:75-77). They are floating-point arithmetic and logging. The model proves only that the step leaves the rows unchanged. With no numeric cell the source logs `NaN`, because nothing guards the division.
- `Date.now()` is not modelled (src/App.tsx:53). The id is a parameter of `AddStep`. The clock does not guarantee unique ids, so the model allows duplicates: `RemoveStep` drops every step with the id and `UpdateStepConfig` patches every such step. `UniqueIds` is proved preserved wherever that holds.
- `Text.Lower`: only ASCII letters are lower-cased. Unicode case mapping, including mappings that change a string's length, is not modelled.
- Strings are sequences of Unicode scalar values, not UTF-16 code units. Lone surrogates, and `includes` matches that split a surrogate pair, are not modelled.
- A config patch is `StepConfig` with `None` for an absent key. The dashboard only ever passes a patch with one present string key. So a key that is present with the value `undefined`, which the spread would copy, is not modelled.
- JavaScript object quirks are not modelled:
  - A header that trims to `__proto__` does not become a key in the source.
  - A filter column that names an inherited property such as `constructor` on a row lacking it makes the source throw.
  - Key order (`Object.keys`) only matters for display.
- There are no chart bucketing, run messages or export. They do not exist in the code: there is no chart branch, and the Download button (src/App.tsx:168-171) has no handler.
