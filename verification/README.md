# Calorie tracker core, modelled in Dafny

This project models the pure logic of the single-page calorie tracker in
`calorie_measure_tool_website_react_tailwind_shadcn.jsx.js`. The page keeps three pieces of
state, modelled by `App.State`:

- a food catalog (`db`): twenty seed foods plus any custom foods;
- the day's log (`items`): one entry per "Add" press, newest first;
- the daily goal (`goal`): kcal, protein, carbs and fat.

Each button or input is modelled as an `App.Action`. `App.Step` maps a state and an action to the
next state and, when the page would raise one, the alert. It also takes the reader that cuts the
data lines of an imported file: the page as written is `Step(s, a, SplitOnComma)`, and the page with
its import corrected is `Step(s, a, ReadJson)`.

## Modules

The modules follow the source's helpers and handlers:

- `Numeric`: numbers as finite decimals `Dec(m, e)`, meaning m/10^e.
  - `round(n, p = 1)` and `Math.round`;
  - `parseFloat` and `grams`;
  - `Number.prototype.toString` in plain notation.
- `Json`: `JSON.stringify` and `JSON.parse` for the scalar values a log entry holds: strings, numbers,
  booleans and `null`, plus `undefined` for a missing key.
- `Strings`:
  - `trim` with the JavaScript white-space set;
  - ASCII `toLowerCase` and `includes`;
  - `split(",")` and `join`;
  - `split(/\r?\n/)`.
- `Rows`: a plain JavaScript object as a sequence of key/value pairs in insertion order.
  - Reading a key; spreading and overwriting a key.
  - `Object.fromEntries`, where the last pair for a key wins.
  - Dropping keys with a rest pattern.
- `Catalog`:
  - the seed catalog;
  - the search filter;
  - `addCustomFood`.
- `FoodLog`:
  - `addToLog`, `deleteItem`, `clearAll`;
  - the `totals` fold;
  - the progress-bar value.
- `Nutrients`, `Goals`:
  - the goal record and its one-field edit;
  - the Daily Needs calculator: Mifflin-St Jeor BMR, activity factor, TDEE and macro split.
- `Csv`: `toCSV`, the export that strips `id` and `ts`, and `importCSV`.
- `App`: the session state, the step function, and whole-session properties such as export followed
  by import.

Random ids (`crypto.randomUUID()`) and clock readings (`Date.now()`) are parameters:

- logging takes `id` and `ts` as arguments;
- importing takes a function `stamp` from the row number to the id and time that row receives.

The text of an imported file is a parameter too; the `FileReader` that supplies it is not modelled.

### Numbers

Numbers are exact, with no IEEE doubles.

- **Values a row stores** are held as normalised decimals, so that `JSON.stringify` and
  `JSON.parse` can be modelled digit by digit. This covers portion sizes and rounded macros.
- **Sums, goal arithmetic and the calculator** use Dafny `real`.
- **`round(n, p)`** is floor(n·10^p + 1/2)/10^p. `Numeric.RoundUnique` shows that its contract
  determines it: it is the one decimal with at most p places within half a unit of n, ties going up.
- **Totals** are added as JavaScript `+` would add them, except that a string field gives `None`
  (see "## Left out"):
  - `null` counts as 0, and `true` and `false` as 1 and 0;
  - `undefined` makes the total `NaN`, modelled as `None`;
  - a string makes the total `None` too, where `+` would concatenate it.

  Such values only reach the log through an import.

### Import reader

The source reads each data line of an import as `ln.split(",").map(JSON.parse)`. `Csv.Reader` has two
readers:

- `SplitOnComma` models that code as written.
- `ReadJson` reads one JSON value after another, each followed by a comma or the end of the line.
  This is the corrected reading.

`App.Step` takes the reader as a parameter, so the session can be run either way; see "Findings".

### Behaviour worth noting

- The calculator rounds protein, carbs and fat to one decimal, because `round` defaults to one
  place. Only kcal is a whole number. With the default inputs the goal is:
  - 2594 kcal;
  - 112 g protein;
  - 324.3 g carbs;
  - 72.1 g fat.

  (`Goals.DefaultNeeds`, `App.InitialCommit`).
- `addCustomFood` tests the name for emptiness before trimming it. A name of spaces is therefore
  accepted and stored as the empty name (`Catalog.CustomFoodBlankName`).
- A negative portion is kept. Only 0 and unreadable input fall back to 100 g.

## Model

| member | source | states |
|---|---|---|
| Numeric.Round | calorie_measure_tool_website_react_tailwind_shadcn.jsx.js:14 | `round(n, p)` has at most p decimals and lies within half a unit of the p-th place of n, ties going up |
| Numeric.RoundUnique | calorie_measure_tool_website_react_tailwind_shadcn.jsx.js:14 | every decimal with at most p places within half a unit of n (ties up) equals `round(n, p)`, so the bounds pin the result down |
| Numeric.RoundExact | calorie_measure_tool_website_react_tailwind_shadcn.jsx.js:14 | rounding a number that already has at most p decimals returns it unchanged |
| Numeric.MathRound | calorie_measure_tool_website_react_tailwind_shadcn.jsx.js:393 | `Math.round(x)` is the integer within one half of x, ties going up |
| Numeric.Grams | calorie_measure_tool_website_react_tailwind_shadcn.jsx.js:15 | `grams(val)` is the number `parseFloat` reads from val, and 0 when it reads none |
| Numeric.ParseFloatShown | calorie_measure_tool_website_react_tailwind_shadcn.jsx.js:15 | `parseFloat` reads back the number `toString` writes, whatever non-numeric text follows it |
| Numeric.GramsShown | calorie_measure_tool_website_react_tailwind_shadcn.jsx.js:15 | `grams` of a displayed number gives that number back exactly |
| Numeric.ShowNumberChars | calorie_measure_tool_website_react_tailwind_shadcn.jsx.js:20 | a number is written with only digits, `-` and `.`: a minus sign only as the first character, at most one point, and a digit at the end |
| Json.Coalesce | calorie_measure_tool_website_react_tailwind_shadcn.jsx.js:20 | `v ?? ""` replaces `null` and `undefined` by the empty string, and every other value passes through |
| Json.ParseStringify | calorie_measure_tool_website_react_tailwind_shadcn.jsx.js:20 | `JSON.parse` gives back every value `JSON.stringify` writes |
| Json.EscapeParse | calorie_measure_tool_website_react_tailwind_shadcn.jsx.js:20 | the escaped body of any string, closed by a quote, parses back to that string and leaves the rest of the text |
| Json.ValueShown | calorie_measure_tool_website_react_tailwind_shadcn.jsx.js:129 | a written value followed by text that cannot extend a number parses back to the value and leaves that text |
| Json.StringifyComma | calorie_measure_tool_website_react_tailwind_shadcn.jsx.js:20 | a written field contains a comma exactly when it is a string containing one |
| Json.StringifyVisible | calorie_measure_tool_website_react_tailwind_shadcn.jsx.js:20 | a written field holds no control character, so no line break |
| Json.OpenQuoteParse | calorie_measure_tool_website_react_tailwind_shadcn.jsx.js:129 | an opening quote followed by an escaped string body with no closing quote never parses |
| Strings.TrimSpec | calorie_measure_tool_website_react_tailwind_shadcn.jsx.js:90 | `trim` keeps the slice left after dropping white space from both ends, and that slice starts and ends with a non-space |
| Strings.Includes | calorie_measure_tool_website_react_tailwind_shadcn.jsx.js:91 | `includes` holds exactly when the needle occurs at some position of the haystack |
| Strings.Split | calorie_measure_tool_website_react_tailwind_shadcn.jsx.js:127 | `split(",")` gives pieces without the separator that join back to the input |
| Strings.SplitJoin | calorie_measure_tool_website_react_tailwind_shadcn.jsx.js:127 | splitting the join of comma-free pieces gives the pieces back |
| Strings.SplitLinesJoin | calorie_measure_tool_website_react_tailwind_shadcn.jsx.js:126 | `split(/\r?\n/)` gives back lines joined with line feeds when no line but the last ends in a carriage return |
| Strings.TrimSplitLines | calorie_measure_tool_website_react_tailwind_shadcn.jsx.js:126 | trimming and then splitting lines joined by line feeds gives them back when the text does not start or end with white space |
| Rows.GetSet | calorie_measure_tool_website_react_tailwind_shadcn.jsx.js:131 | after `{...obj, k: v}` key k reads v and every other key reads as before |
| Rows.GetFromEntries | calorie_measure_tool_website_react_tailwind_shadcn.jsx.js:130 | in `Object.fromEntries(pairs)` each key reads as its last pair's value, `undefined` when none |
| Rows.FromDistinctEntries | calorie_measure_tool_website_react_tailwind_shadcn.jsx.js:130 | pairs with distinct keys become an object with those pairs in that order |
| Rows.GetWithout | calorie_measure_tool_website_react_tailwind_shadcn.jsx.js:140 | after `({id, ts, ...rest}) => rest` the dropped keys read `undefined` and the others read as before |
| Rows.WithoutDistinct | calorie_measure_tool_website_react_tailwind_shadcn.jsx.js:140 | dropping keys keeps the remaining keys distinct |
| Catalog.Search | calorie_measure_tool_website_react_tailwind_shadcn.jsx.js:89-92 | every search result matches the trimmed, lower-cased query, and there are no more results than foods |
| Catalog.SearchSpec | calorie_measure_tool_website_react_tailwind_shadcn.jsx.js:89-92 | a food is a result exactly when it is in the catalog and matches, with its catalog multiplicity, and the results are a subsequence of the catalog |
| Catalog.SearchBlank | calorie_measure_tool_website_react_tailwind_shadcn.jsx.js:90-91 | an empty or white-space query lists the whole catalog |
| Catalog.SearchCons | calorie_measure_tool_website_react_tailwind_shadcn.jsx.js:91 | a food put in front of the catalog comes first in the results when it matches, followed by the old results |
| Catalog.SearchNormalised | calorie_measure_tool_website_react_tailwind_shadcn.jsx.js:90 | surrounding white space and letter case in the query do not change the results |
| Catalog.AddCustomFood | calorie_measure_tool_website_react_tailwind_shadcn.jsx.js:150-160 | an empty name is refused with "Enter a food name". Otherwise the record built from the form goes in front of an otherwise unchanged catalog, with the name trimmed and each number read by `grams`, 0 when unreadable |
| Catalog.CustomFoodFound | calorie_measure_tool_website_react_tailwind_shadcn.jsx.js:150-160 | a new custom food is the first result of searching for its name, ahead of the older matches |
| Catalog.CustomFoodBlankName | calorie_measure_tool_website_react_tailwind_shadcn.jsx.js:152-154 | a name of spaces passes the emptiness test and is stored as the empty name |
| FoodLog.PortionGrams | calorie_measure_tool_website_react_tailwind_shadcn.jsx.js:105 | the portion is `grams(input)` unless that is 0, and then 100 g; it is never 0, and a negative number is kept |
| FoodLog.PortionTyped | calorie_measure_tool_website_react_tailwind_shadcn.jsx.js:105 | typing a non-zero number gives exactly that portion |
| FoodLog.Portion | calorie_measure_tool_website_react_tailwind_shadcn.jsx.js:106-115 | each amount has at most one decimal and lies within 0.05 of the per-100 g value times g/100 |
| FoodLog.PortionHundred | calorie_measure_tool_website_react_tailwind_shadcn.jsx.js:105-115 | a 100 g portion of a value with at most one decimal is that value |
| FoodLog.NewEntryInfo | calorie_measure_tool_website_react_tailwind_shadcn.jsx.js:107-117 | a new entry reads back the id, food name, meal, portion and time it was given |
| FoodLog.NewEntryField | calorie_measure_tool_website_react_tailwind_shadcn.jsx.js:112-115 | each macro of a new entry is the food's per-100 g amount scaled to the portion and rounded to one decimal |
| FoodLog.NewEntryKeys | calorie_measure_tool_website_react_tailwind_shadcn.jsx.js:107-117 | a new entry has the nine keys id, name, meal, grams, kcal, protein, carbs, fat, ts, in that order and each once |
| FoodLog.AddToLog | calorie_measure_tool_website_react_tailwind_shadcn.jsx.js:118 | the log grows by one: the new entry, built from the food, portion, meal, id and time, comes first, and the old log follows unchanged |
| FoodLog.DeleteItem | calorie_measure_tool_website_react_tailwind_shadcn.jsx.js:121 | no entry with the id survives a delete, and the log does not grow |
| FoodLog.DeleteSpec | calorie_measure_tool_website_react_tailwind_shadcn.jsx.js:121 | an entry survives exactly when it has another id, as often as the log holds it, in the original order |
| FoodLog.DeleteAbsent | calorie_measure_tool_website_react_tailwind_shadcn.jsx.js:121 | deleting an id no entry has leaves the log unchanged |
| FoodLog.DeleteAfterAdd | calorie_measure_tool_website_react_tailwind_shadcn.jsx.js:104-121 | logging with a fresh id and then deleting that id restores the log |
| FoodLog.FoldSum | calorie_measure_tool_website_react_tailwind_shadcn.jsx.js:96-101 | the left-to-right `reduce` from any start equals the start plus the reference sum of the amounts |
| FoodLog.TotalIsSum | calorie_measure_tool_website_react_tailwind_shadcn.jsx.js:94-102 | each total is the sum of that field over the log, and 0 for an empty log |
| FoodLog.SumDefined | calorie_measure_tool_website_react_tailwind_shadcn.jsx.js:96-101 | a total is a number exactly when every entry's field adds as a number |
| FoodLog.TotalAdd | calorie_measure_tool_website_react_tailwind_shadcn.jsx.js:94-118 | logging a portion raises each total by exactly that entry's amount |
| FoodLog.TotalDelete | calorie_measure_tool_website_react_tailwind_shadcn.jsx.js:94-121 | each total before a delete is the total after it plus the sum over the removed entries |
| FoodLog.Progress | calorie_measure_tool_website_react_tailwind_shadcn.jsx.js:260 | the progress value exists exactly when the total is a number, and never exceeds 100 |
| FoodLog.ProgressShare | calorie_measure_tool_website_react_tailwind_shadcn.jsx.js:260 | under a positive goal, progress is the total as a percentage of the goal, capped at 100 |
| FoodLog.ProgressZeroGoal | calorie_measure_tool_website_react_tailwind_shadcn.jsx.js:260 | a zero goal counts as 1, with no division by zero |
| FoodLog.ProgressMonotone | calorie_measure_tool_website_react_tailwind_shadcn.jsx.js:260 | under a positive goal a larger total never shows less progress |
| Goals.EditGoal | calorie_measure_tool_website_react_tailwind_shadcn.jsx.js:258 | editing one goal field sets it to `grams(input)`, 0 when unreadable, and leaves the other three fields unchanged |
| Goals.EditGoalTyped | calorie_measure_tool_website_react_tailwind_shadcn.jsx.js:258 | typing a displayed number into a goal box stores that number |
| Goals.Factor | calorie_measure_tool_website_react_tailwind_shadcn.jsx.js:431-439 | the five activity choices Sedentary, Light, Moderate, Very active and Extra active stand for the multipliers 1.2, 1.375, 1.55, 1.725 and 1.9 |
| Goals.FactorDistinct | calorie_measure_tool_website_react_tailwind_shadcn.jsx.js:432-439 | the page stores the chosen multiplier rather than the choice; no two choices share a multiplier, so the stored number identifies the choice, and the multipliers rise down the list |
| Goals.BmrSexGap | calorie_measure_tool_website_react_tailwind_shadcn.jsx.js:378-380 | the same body gets 166 kcal more as male than as female |
| Goals.BmrSlopes | calorie_measure_tool_website_react_tailwind_shadcn.jsx.js:378-380 | each kilogram adds 10 kcal to the basal rate, each centimetre 6.25 kcal, and each year takes 5 kcal away |
| Goals.RoundTenth | calorie_measure_tool_website_react_tailwind_shadcn.jsx.js:386-390 | `round` with the default precision gives at most one decimal, within 0.05 of the input, ties going up |
| Goals.RoundTenthUnique | calorie_measure_tool_website_react_tailwind_shadcn.jsx.js:386-390 | any one-decimal number within 0.05 of the input (ties up) is the rounded value |
| Goals.ComputeGoal | calorie_measure_tool_website_react_tailwind_shadcn.jsx.js:384-393 | the proposed goal is kcal = TDEE to the whole kcal, and protein = weight times g/kg, carbs = their share at 4 kcal/g and fat = their share at 9 kcal/g, each within 0.05 with one decimal |
| Goals.EnergySplit | calorie_measure_tool_website_react_tailwind_shadcn.jsx.js:387-390 | the energy in the proposed carbs and fat is within 0.65 kcal of their combined share of TDEE |
| Goals.DefaultNeeds | calorie_measure_tool_website_react_tailwind_shadcn.jsx.js:368-393 | the default inputs give BMR 1673.75, TDEE 2594.3125 and the goal 2594 kcal, 112 g protein, 324.3 g carbs, 72.1 g fat |
| Csv.Cells | calorie_measure_tool_website_react_tailwind_shadcn.jsx.js:20 | a data line has one field per header key, the key's value written by `JSON.stringify`, a missing key or a `null` value as the two characters `""` |
| Csv.CsvLines | calorie_measure_tool_website_react_tailwind_shadcn.jsx.js:18-21 | the first line is the first row's keys joined by commas, followed by one line per row under those keys |
| Csv.ToCsv | calorie_measure_tool_website_react_tailwind_shadcn.jsx.js:17 | the text is empty exactly when there are no rows; otherwise it is the header line and one comma-joined line per row, joined by line feeds (`Csv.LinesBack` shows that the lines split back) |
| Csv.Strip | calorie_measure_tool_website_react_tailwind_shadcn.jsx.js:140 | an exported row has no `id` and no `ts` |
| Csv.Stripped | calorie_measure_tool_website_react_tailwind_shadcn.jsx.js:140 | the export strips every entry, one row per entry in log order |
| Csv.Pairs | calorie_measure_tool_website_react_tailwind_shadcn.jsx.js:130 | each column name is paired with the value at its position, `undefined` past the end of the line |
| Csv.RecordSpec | calorie_measure_tool_website_react_tailwind_shadcn.jsx.js:128-131 | an imported row has the stamp's id and time. Every other key reads as the value of the last column with that name, `undefined` when the line is too short or there is no such column |
| Csv.ImportCsv | calorie_measure_tool_website_react_tailwind_shadcn.jsx.js:124-137 | a failed import reports "Invalid CSV", and a successful one keeps the old log as the tail of the new one |
| Csv.ImportSpec | calorie_measure_tool_website_react_tailwind_shadcn.jsx.js:124-137 | import succeeds exactly when every data line parses, and then puts one stamped row per line, in file order, in front of the old log |
| Csv.ImportHeaderOnly | calorie_measure_tool_website_react_tailwind_shadcn.jsx.js:126 | a text with no line break after trimming, including the empty text, imports nothing and changes nothing |
| Csv.SplitReadsBack | calorie_measure_tool_website_react_tailwind_shadcn.jsx.js:129 | splitting on commas reads back a line of written values when none of them is a string with a comma |
| Csv.SplitBreaks | calorie_measure_tool_website_react_tailwind_shadcn.jsx.js:129 | splitting on commas fails on any line holding a string with a comma |
| Csv.ReadJsonReadsBack | calorie_measure_tool_website_react_tailwind_shadcn.jsx.js:129 | the corrected reader reads back every line of written values |
| Csv.LinesBack | calorie_measure_tool_website_react_tailwind_shadcn.jsx.js:126-127 | trimming and splitting an exported table gives back its lines, and the header splits back into the keys |
| Csv.RoundTrip | calorie_measure_tool_website_react_tailwind_shadcn.jsx.js:124-133 | importing a written table whose lines read back puts every row, stamped afresh, in front of the old log |
| Csv.ExportImportJson | calorie_measure_tool_website_react_tailwind_shadcn.jsx.js:139-140 | with the corrected reader an exported log imports as its entries without the old id and time, stamped afresh, in front of the old log |
| Csv.ExportImportSplit | calorie_measure_tool_website_react_tailwind_shadcn.jsx.js:139-140 | with the reader as written the same holds when no exported string has a comma |
| Csv.ExportSplitBreaks | calorie_measure_tool_website_react_tailwind_shadcn.jsx.js:128-129 | with the reader as written, an export holding any string with a comma fails to import with "Invalid CSV" |
| App.Step | calorie_measure_tool_website_react_tailwind_shadcn.jsx.js:104-162 | for either reader, the alerts are exactly an empty custom name and an import that fails with that reader, and an alert changes nothing. Each action touches only its own part of the state: logging prepends one entry, deleting never grows the log, clearing empties it, adding a food prepends one, and importing keeps the old log as the tail |
| App.CustomStep | calorie_measure_tool_website_react_tailwind_shadcn.jsx.js:150-162 | the custom-food button alerts exactly on an empty name; otherwise it prepends one food, leaving the log and goal unchanged |
| App.ImportStep | calorie_measure_tool_website_react_tailwind_shadcn.jsx.js:124-137 | importing alerts exactly when the text does not import with the given reader (the page's comma split, or the corrected JSON reader) and then changes nothing; otherwise the catalog and goal are unchanged and the old log is the tail |
| App.ImportAlert | calorie_measure_tool_website_react_tailwind_shadcn.jsx.js:134-136 | a file the reader cannot import raises the "Invalid CSV" alert and leaves the whole session as it was |
| App.InitialSession | calorie_measure_tool_website_react_tailwind_shadcn.jsx.js:26-75 | a fresh session lists the twenty seed foods and an empty log, with zero totals and zero progress against the default goal |
| App.InitialCommit | calorie_measure_tool_website_react_tailwind_shadcn.jsx.js:49-54 | the default goal is 2200 kcal, 120 g protein, 250 g carbs and 70 g fat; committing the calculator's default inputs replaces it with 2594 / 112 / 324.3 / 72.1 |
| App.LogThenDelete | calorie_measure_tool_website_react_tailwind_shadcn.jsx.js:118-121 | logging with a fresh id and deleting that id returns the session to where it was, with no alert |
| App.ClearZeroes | calorie_measure_tool_website_react_tailwind_shadcn.jsx.js:122 | after "Clear all" every total is 0 |
| App.CustomFoodSearch | calorie_measure_tool_website_react_tailwind_shadcn.jsx.js:150-160 | after adding a custom food, searching for its name shows it first, ahead of the older matches |
| App.CommitGoalTwice | calorie_measure_tool_website_react_tailwind_shadcn.jsx.js:392-395 | writing the calculator's goal sets the goal to the computed one, and writing it again changes nothing |
| App.LogEntries | calorie_measure_tool_website_react_tailwind_shadcn.jsx.js:118 | the log built by a series of presses, plus one more press, is the log of the longer series |
| App.StripEntry | calorie_measure_tool_website_react_tailwind_shadcn.jsx.js:140 | stripping a new entry leaves its seven columns name, meal, grams, kcal, protein, carbs, fat, in order |
| App.EntriesExportable | calorie_measure_tool_website_react_tailwind_shadcn.jsx.js:139-140 | any non-empty log built by presses exports as a well-formed table of plain values |
| App.ExportThenImport | calorie_measure_tool_website_react_tailwind_shadcn.jsx.js:139-140 | with the corrected reader, importing the export of a pressed log raises no alert and prepends the entries without their old ids and times, stamped afresh |
| App.ExportThenSplitImport | calorie_measure_tool_website_react_tailwind_shadcn.jsx.js:128-129 | on the page as written, importing the export of a log holding a food whose name has a comma raises the "Invalid CSV" alert and changes nothing |
| App.CommaNameExport | calorie_measure_tool_website_react_tailwind_shadcn.jsx.js:128-129 | after logging a food with a comma in its name, the page as written alerts "Invalid CSV" on its own export and keeps its state, while the corrected import reads it back |
| App.EggWhole | calorie_measure_tool_website_react_tailwind_shadcn.jsx.js:27 | the first seed food, "Egg, whole", has a comma in its name |

## Left out

- Rendering and hooks are not modelled:
  - JSX;
  - the React hooks, whose state is the explicit `App.State`;
  - framer-motion;
  - the 12-result display limit on search results;
  - the form reset after adding a custom food;
  - the query, meal and portion inputs, which appear as arguments of the actions.
- localStorage is browser I/O and is not modelled:
  - the snapshot read at start-up, which has no fallback on a corrupt snapshot;
  - the writes on every change.
- The `FileReader`, `Blob`, object URL and download anchor of import and export are not modelled. The file text is a parameter.
- `crypto.randomUUID()` and `Date.now()` are parameters, not computations. Logging receives them; importing receives a function from row number to id and time.
- Numbers are exact decimals and reals, not IEEE doubles.
  - There are no `NaN` or infinity values, no overflow and no binary rounding error.
  - `Math.round` is floor(x + 1/2).
- Numeric.ParseFloat: recognises a sign, digits, a point and an exponent, but not `Infinity`. Its contract only states that the result is normalised; what it reads is stated by `Numeric.ParseFloatShown`.
- Json: only scalar values are modelled. Arrays and objects in an imported field fail to parse; the source would accept them.
  - `toString` and `JSON.stringify` always write plain decimal notation, never exponent notation.
  - Negative zero is not distinguished from zero.
- Rows: objects keep insertion order. The engine's rule that integer-like keys come first is not modelled.
- Strings: `toLowerCase` folds ASCII letters only.
- Json.ParseEscape: refuses a `\u` escape of an unpaired surrogate (a lone `\uDC00`-`\uDFFF`, or `\uD800`-`\uDBFF` not followed by a low-surrogate escape), because a Dafny `char` is a Unicode scalar value and cannot hold a lone surrogate. `JSON.parse` accepts such a string, so an import line holding one fails in the model where the page would accept it.
- FoodLog.Total: a string field is treated as "not a number" (`None`). In JavaScript `+` would concatenate it into a string total.
- The Daily Needs calculator writes its goal automatically on every input change and on "Set as Daily Goal". Both are modelled as one `CommitGoal(profile)` action. The effect scheduling is not modelled.
- The calculator's input handlers are not modelled: age, height and weight are read by `grams`, activity by `parseFloat`, and the protein slider is rounded to one decimal. A `Goals.Profile` holds the values they produce.
- `defaultPrefs` (unit and theme) is not modelled; no computation reads it.

## Findings

| source | as written | input that shows it | evidently intended | confidence | as-written member | corrected member |
|---|---|---|---|---|---|---|
| calorie_measure_tool_website_react_tailwind_shadcn.jsx.js:128-129 | each data line is cut with `ln.split(",")` before `JSON.parse`, so a comma inside a quoted field splits that field | export a log holding "Egg, whole" (the first seed food); the line's `"Egg` piece does not parse, and the import fails with "Invalid CSV" | a file the page exports imports back, with each JSON field read whole | not executed | Csv.ExportSplitBreaks, App.CommaNameExport | Csv.ExportImportJson, App.ExportThenImport |

`Csv.Reader.SplitOnComma` is the as-written reader, and `Csv.Reader.ReadJson` the corrected one. `App.Step` takes either reader. `App.CommaNameExport` states both halves for the page's own export: with `SplitOnComma` it alerts, and with `ReadJson` it does not.
