# HighestFlightMapReduce in Dafny

The program reads passenger rows, counts how many well-formed rows (exactly
six columns) share a first column (the passenger id), and reports the
highest count together with every passenger who has it. It does this twice,
once in Go and once in Python, each as a map / shuffle / reduce pipeline
followed by a max-with-ties selection.

Files:

- `records.dfy` (module `Records`): a row as `seq<string>`, the six-column
  validity test, and `Option`.
- `decimal.dfy` (module `DecimalText`): the decimal text that Go's
  `Sprintf("%d")` writes for a count, and `Sscanf("%d")` reading it back.
- `go_mapreduce.dfy` (module `GoMapReduce`): `mapRecord`, `shuffle`,
  `reduce`, the selector loop in `main`, and the pipeline as a whole.
- `py_keys.dfy` (module `PyKeys`): the key normalisation
  `strip().upper()`, restricted to ASCII.
- `py_mapreduce.dfy` (module `PyMapReduce`): `map`, `shuffle`, `reduce`,
  the `max`/`filter` selection, and the pipeline as a whole.

How the Go concurrency is modelled. The map goroutines send their pairs in
an order nobody controls. `GoMapReduce.Run` therefore takes that order as a
parameter `arrival`, constrained only to be a permutation of the pairs the
rows produce. Go's map iteration order in `reduce` is unspecified too:
`GoMapReduce.Reduce` picks the next key with `:|`, so its contract holds for
every iteration order. The forwarding goroutine between `mapOut` and
`shuffleIn` passes pairs through unchanged, so it is the identity here.
`Run`'s postconditions depend only on the rows, and `RunAnswerUnique` proves
that any two answers meeting them have the same maximum and the same set of
winners, whatever the arrival and reduce orders.

How the Python job is modelled. `pool.map` keeps its input order, so it is
an ordinary sequence map (`MapAll`, `ReduceAll`). A Python dict keeps keys
in insertion order. `shuffle` therefore returns a `map` from key to list
plus the sequence of keys in insertion order. `max` on an empty list raises
`ValueError`; `Select` and `Run` return `None` in that case.

Points worth stating about what the two programs do:

- Both programs build a list of winners, not a set, and so does the model;
  the contracts state that the list has no repeats.
- With no valid row, the Go program ends with maximum 0 and no winners
  (`GoMapReduce.Run`). The Python program's `max` raises `ValueError` on
  the empty `reduce_out` (`PyMapReduce.Run` returns `None`).
- The Go selector appends a key whose count equals the current maximum,
  including a count of 0 at the start. No reduced count is 0, because every
  shuffled list is non-empty, so this never happens; `SelectHighest`
  models the comparison as written.

## Model

| member | source | states |
|---|---|---|
| `GoMapReduce.MapRecord` | assign_golang.go:12-17 | a row yields a pair exactly when it has 6 fields, and the pair is (first field, "1"); any other row yields nothing |
| `GoMapReduce.Emissions` | assign_golang.go:60-66 | the map phase sends at most one pair per row, and every pair sent carries the value "1" |
| `GoMapReduce.EmissionsAreMapped` | assign_golang.go:60-66 | over all rows, every pair sent has value "1", the multiset of pairs holds (k, "1") once per valid row whose first field is k, and the number of pairs is the number of rows minus the dropped ones |
| `GoMapReduce.RowCountPositive` | assign_golang.go:13-16 | a passenger has a positive row count exactly when some 6-field row carries it |
| `GoMapReduce.Shuffle` | assign_golang.go:20-25 | the map's keys are exactly the keys in the stream, and each key's list is the sequence of that key's values in arrival order, never empty |
| `GoMapReduce.ShuffleStep` | assign_golang.go:22-23 | one loop step (append to the key's slice, a missing key reading as nil) keeps the map equal to the grouping of the pairs read so far |
| `GoMapReduce.ValuesForLength` | assign_golang.go:22-23 | a key's list has one element per pair with that key, and all of them are "1" when every value in the stream is "1" |
| `GoMapReduce.ValuesForMultiplicity` | assign_golang.go:20-25 | for a stream of unit pairs, a key's list length is the multiplicity of (k, "1") in the stream, so it does not depend on arrival order |
| `GoMapReduce.ValuesForPresent` | assign_golang.go:20-25 | a key's list is non-empty exactly when the key occurs in the stream |
| `GoMapReduce.ArrivalCounts` | assign_golang.go:60-84 | for every arrival order of the map output, the list shuffle builds for a passenger has as many elements as that passenger has valid rows, all "1", and it exists exactly when that number is positive |
| `GoMapReduce.Reduce` | assign_golang.go:29-33 | one pair per map key and no key twice; each pair carries the decimal text of its list's length; holds for every map iteration order |
| `DecimalText.FormatCount` | assign_golang.go:31 | `Sprintf("%d")` of a count is non-empty, all digits, without leading zero, one digit exactly below 10 |
| `DecimalText.ParseCount` | assign_golang.go:92 | scanning succeeds exactly on non-empty digit strings |
| `DecimalText.ParseFormat` | assign_golang.go:91-92 | scanning the text written for n gives back n, and the selector reads n from it |
| `DecimalText.ScannedCount` | assign_golang.go:91-92 | `numFlights` stays 0 when the text is not a digit string, and a canonical digit string is read as the count whose `Sprintf("%d")` it is |
| `DecimalText.FormatParse` | assign_golang.go:92 | every canonical digit string is exactly the text the formatter writes for the value scanned from it |
| `GoMapReduce.KeysWithCountMembers` | assign_golang.go:93-98 | a key is in the tie list for count c exactly when some reduced pair carries that key with count c |
| `GoMapReduce.KeysWithCountAbove` | assign_golang.go:93-95 | no key is tied at a count larger than every count seen, which is why a larger count may reset the list to one key |
| `GoMapReduce.KeysWithCountDistinct` | assign_golang.go:96-97 | when the reduced keys are distinct, the tie list has no repeats |
| `GoMapReduce.SelectHighest` | assign_golang.go:87-99 | the final `highFlightNumber` is at least every count read and is either 0 or one of them; `listHighFlightNumbers` is exactly the keys whose count equals it, in the order they were read (the loop invariant keeps this for the prefix read so far) |
| `GoMapReduce.ReducedCounts` | assign_golang.go:60-85 | whatever order the map pairs arrive in, the pairs `reduce` returns name each passenger with valid rows exactly once, each with a count that reads back as that passenger's number of valid rows |
| `GoMapReduce.SelectCounts` | assign_golang.go:87-99 | run over such pairs, the selector's maximum bounds and is attained by the valid-row counts, is 0 exactly when no row is valid, and its list holds exactly the passengers with that many rows, once each |
| `GoMapReduce.Run` | assign_golang.go:60-99 | for every arrival order and reduce order: the maximum is at least every passenger's valid-row count and is attained; it is 0 exactly when no row has 6 fields, and then the winner list is empty; a passenger is a winner exactly when it has a positive count equal to the maximum; no winner is listed twice |
| `GoMapReduce.RunAnswerUnique` | assign_golang.go:87-99 | any two results meeting `Run`'s postconditions for the same rows have the same maximum and the same set of winners, so the answer does not depend on goroutine scheduling or map iteration order |
| `GoMapReduce.ExampleCounts` | assign_golang.go:13-16 | rows A, A, B, a 4-column A row, A, C, B give counts 3, 2 and 1, and 0 for any other id; the short row is not counted |
| `PyKeys.Strip` | Assignment_solution_basic.py:18 | `strip()` never lengthens the text, leaves it neither starting nor ending with whitespace, and empties it exactly when it is all whitespace |
| `PyKeys.Normalize` | Assignment_solution_basic.py:18 | `strip().upper()` gives a key no longer than the id, with no surrounding whitespace and no lower-case ASCII letter, empty exactly when the id is all whitespace |
| `PyKeys.Upper` | Assignment_solution_basic.py:18 | `upper()` keeps the length and upper-cases each ASCII letter in place |
| `PyKeys.StripLeftShape` | Assignment_solution_basic.py:18 | stripping on the left removes exactly a whitespace prefix and leaves no leading whitespace |
| `PyKeys.StripRightShape` | Assignment_solution_basic.py:18 | stripping on the right removes exactly a whitespace suffix and leaves no trailing whitespace |
| `PyKeys.StripPadding` | Assignment_solution_basic.py:18 | `strip()` ignores any whitespace added around a string |
| `PyKeys.StripIdempotent` | Assignment_solution_basic.py:18 | stripping a stripped string changes nothing |
| `PyKeys.NormalizeIsStripOfUpper` | Assignment_solution_basic.py:18 | strip-then-upper equals upper-then-strip |
| `PyKeys.NormalizeIgnoresPadding` | Assignment_solution_basic.py:17-18 | ids that differ only in surrounding whitespace normalise to the same key |
| `PyKeys.NormalizeIgnoresCase` | Assignment_solution_basic.py:17-18 | ids that differ only in letter case normalise to the same key |
| `PyKeys.NormalizeIdempotent` | Assignment_solution_basic.py:18 | a normalised key is its own normal form |
| `PyMapReduce.Map` | Assignment_solution_basic.py:7-20 | a row yields a pair exactly when it has 6 columns, and the pair is (stripped, upper-cased first column, 1); any other row yields `None` |
| `PyMapReduce.MapAll` | Assignment_solution_basic.py:56 | `pool.map(map, map_in)` keeps one entry per row in row order: a pair (normalised id, 1) exactly for the 6-column rows and `None` for the others |
| `PyMapReduce.MappedValues` | Assignment_solution_basic.py:56 | in the mapper output, the values for id k are one 1 per valid row whose normalised first column is k |
| `PyMapReduce.MappedKeys` | Assignment_solution_basic.py:56 | an id occurs in the mapper output exactly when some valid row normalises to it |
| `PyMapReduce.MappedRow` | Assignment_solution_basic.py:14-18 | every valid row contributes to the count of its normalised id |
| `PyMapReduce.RowWitness` | Assignment_solution_basic.py:14-18 | a positive count has a valid row behind it |
| `PyMapReduce.Shuffle` | Assignment_solution_basic.py:23-35 | `None` entries are skipped; the dict's keys are exactly the ids present, each list is that id's values in input order and non-empty, and the key order is the first-occurrence order |
| `PyMapReduce.ShuffleNewKey` | Assignment_solution_basic.py:31-32 | a first occurrence creates a singleton list and appends the id to the key order, keeping the dict equal to the grouping so far |
| `PyMapReduce.ShuffleOldKey` | Assignment_solution_basic.py:33-34 | a later occurrence appends to the id's list and leaves the key order unchanged, keeping the dict equal to the grouping so far |
| `PyMapReduce.ShuffleNone` | Assignment_solution_basic.py:30 | a `None` entry leaves the dict unchanged |
| `PyMapReduce.FirstSeenMembers` | Assignment_solution_basic.py:29-34 | the dict's key order lists exactly the ids present |
| `PyMapReduce.FirstSeenDistinct` | Assignment_solution_basic.py:31-32 | no id is inserted twice |
| `PyMapReduce.FirstSeenWitness` | Assignment_solution_basic.py:29-34 | every id in the key order occurs in the mapper output |
| `PyMapReduce.FirstSeenOrder` | Assignment_solution_basic.py:29-34 | the key order follows first occurrence: wherever a later key occurs, an earlier key has occurred before it |
| `PyMapReduce.ValuesOfPresent` | Assignment_solution_basic.py:29-35 | an id has a non-empty list exactly when it is present |
| `PyMapReduce.ShuffleTotal` | Assignment_solution_basic.py:29-35 | the list lengths over the dict's keys add up to the number of non-`None` inputs |
| `PyMapReduce.SumOfOnes` | Assignment_solution_basic.py:38-45 | `sum` of a list of 1s is its length |
| `PyMapReduce.Reduce` | Assignment_solution_basic.py:38-45 | `reduce` keeps the id, and a list of 1s sums to its length, the number of flights |
| `PyMapReduce.ReduceAll` | Assignment_solution_basic.py:60 | `pool.map(reduce, ...)` yields one entry per dict key, in the dict's key order |
| `PyMapReduce.ReducedCounts` | Assignment_solution_basic.py:56-60 | `reduce_out` holds every id with valid rows exactly once, each with its row count, and no other id |
| `PyMapReduce.MaxCount` | Assignment_solution_basic.py:63 | `max(...)[1]` is `None` (`ValueError`) exactly on an empty list; otherwise it is at least every count and equal to one of them |
| `PyMapReduce.WithCount` | Assignment_solution_basic.py:66 | `filter` keeps exactly the entries whose count is c |
| `PyMapReduce.WithCountDistinct` | Assignment_solution_basic.py:66 | entries with distinct ids stay distinct after `filter` |
| `PyMapReduce.WithCountOrder` | Assignment_solution_basic.py:66 | over entries with distinct ids, `filter` keeps the relative order of the entries it keeps |
| `PyMapReduce.Select` | Assignment_solution_basic.py:63-66 | `None` exactly on an empty `reduce_out`; otherwise the highest count bounds every entry, the winner list is exactly the entries with that count, and it is non-empty |
| `PyMapReduce.SelectCounts` | Assignment_solution_basic.py:63-66 | over `reduce_out`, the selection fails exactly when no row is valid; otherwise the highest count is the largest row count and the winners are exactly the ids with that many rows |
| `PyMapReduce.WinnersInRowOrder` | Assignment_solution_basic.py:29-34 | two winners come out in the order of their ids' first valid rows |
| `PyMapReduce.FilterInRowOrder` | Assignment_solution_basic.py:66 | the whole filtered list is in first-valid-row order |
| `PyMapReduce.RunSelection` | Assignment_solution_basic.py:63-66 | over reduced pairs in first-row order, the selection is the one `Run` promises: none exactly when no row is valid, else the largest count with exactly its ids, once each, in order of first valid row |
| `PyMapReduce.Run` | Assignment_solution_basic.py:48-66 | `None` exactly when no row has 6 columns; otherwise the maximum is the largest number of valid rows sharing a normalised id, the winner list holds (id, maximum) for exactly the ids with that many rows, with no id twice, in order of each id's first valid row |

## Left out

- Reading the CSV file (`os.Open`, `csv.ReadAll`, `open`, `csv.reader`) is I/O. The model takes the rows as a `seq<seq<string>>`. Go's `csv.Reader` with the default `FieldsPerRecord` of 0 rejects a file whose rows differ in width, and `main` then panics (assign_golang.go:44-48), so in the Go program a row of another width than the first never reaches `mapRecord`; the model, like `ExampleCounts` and `Example`, lets any mix of widths reach it.
- Go concurrency is not modelled: goroutines, `sync.WaitGroup`, buffered channels and their closing, and `runtime.GOMAXPROCS`. Arrival order is a permutation parameter and `reduce`'s order is a nondeterministic choice. Deadlock freedom and channel capacity are not covered.
- `multiprocessing.Pool` is not modelled; `pool.map` is an order-preserving sequence map.
- Printing the results is output formatting and is left out.
- PyKeys.Upper: models ASCII only. Non-ASCII case mappings are not modelled, including those that change length (`'ß'.upper() == 'SS'`).
- PyKeys.IsSpace: ASCII whitespace only. Non-ASCII whitespace that `str.strip()` also removes (U+0085, U+00A0, U+2000..U+200A and others) is not modelled.
- DecimalText.ParseCount: accepts only unsigned digit strings. `Sscanf`'s sign, leading spaces and partial scans are not modelled, because the text it reads always comes from `Sprintf("%d")` of a list length.
- The `try`/`except ValueError` around `strip().upper()` is not modelled. Both calls are total on `str`, so the handler cannot run.
- Integers are unbounded. Go's `int` cannot overflow here, because a count never exceeds the number of rows.
