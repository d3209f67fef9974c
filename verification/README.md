# serpyco rename plan, modelled in Dafny

serpyco renames photographs chronologically. Its one piece of logic is
`generate_rename_plan(files_and_dates, prefix, date_as_filename)`:

- it sorts the caller's list of `(filename, date)` pairs by date, in place;
- it computes a zero-padding width from the number of entries;
- it walks the sorted list and pairs each file with a new name that keeps the
  file's directory (`"."` when it has none) and its extension.

The new name has one of two forms:

- **sequential mode:** `dir/<prefix><0-based index, zero-padded><ext>`;
- **date-as-name mode:** `dir/<date rendered by strftime('%Y-%M-%d %H.%M.%S')>[-k]<ext>`.

In date-as-name mode, a `counter` / `previous_date` pair numbers the entries
that repeat the previous entry's date with `-1`, `-2`, and so on.

The project has five modules, one per concern:

- `Decimal` (decimal.dfy): the counter width as the least `w` with
  `10^w >= n`, the `str(n)` rendering and the `%0<w>d` padding, each with its
  read-back value.
- `Dates` (dates.dfy): a datetime as six integer fields, its chronological
  order, and the `strftime` rendering.
- `Paths` (paths.dfy): POSIX `os.path.splitext` and `os.path.dirname` as
  string functions, with their round trips.
- `DateSort` (sort.dfy): the stable sort by date. It is written as an
  insertion sort, and `StableSortUnique` proves that every ascending
  rearrangement keeping the input order among equal dates is this very list.
  So it stands for Python's `list.sort` exactly.
- `RenamePlan` (rename_plan.dfy): the method `GenerateRenamePlan` and its
  loop `PlanSorted`, over an `array` sorted in place. It also holds the
  specification `NewName` of each position's new name and the lemmas about
  the names.

Two behaviours follow the code rather than the repository's tests:

- **Numbering starts at 0.** The loop uses `enumerate` (serpyco.py:76, 92).
  The tests expect numbering to start at 1.
- **The month is never rendered.** The date format puts `%M`, the minute,
  in the month slot (serpyco.py:81). The tests expect a month there.
  `Dates.FormatIgnoresMonth` proves that the rendering loses the month.

Because of the second point, date-mode names are proved distinct only inside
a run of equal dates. Two dates that differ only in the month render alike.

## Model

| member | source | states |
|---|---|---|
| Decimal.Width | serpyco.py:71 | the width is the least `w` with `n <= 10^w`: `n <= 10^w`, and `10^(w-1) < n` unless `w` is 0 |
| Decimal.WidthIsLastIndexDigits | serpyco.py:71-72 | for `n >= 2` the last index `n - 1` has exactly `Width(n)` digits, so the width is never larger than needed |
| Decimal.PaddedIndexLength | serpyco.py:71-72 | every 0-based index below `n` pads to exactly `Width(n)` characters; a single entry has width 0 and its index renders as "0" |
| Decimal.Digits | serpyco.py:87 | `str(n)` is a nonempty decimal string with no leading zero |
| Decimal.DigitsValue | serpyco.py:87 | `str(n)` reads back as `n` |
| Decimal.DigitsLength | serpyco.py:72 | `n` has at most `w` digits exactly when `n < 10^w` |
| Decimal.DigitsInjective | serpyco.py:87 | distinct counters render differently |
| Decimal.ZeroPad | serpyco.py:72 | `%0<w>d` gives a decimal string of length `max(w, len(str(n)))`, exactly `w` when `n < 10^w` |
| Decimal.ZeroPadValue | serpyco.py:72 | the padded rendering reads back as `n` |
| Decimal.ZeroPadInjective | serpyco.py:92 | paddings to one width are equal only for equal indices |
| Dates.Before | serpyco.py:73 | no ensures: the definition of datetime `<`, lexicographic on (year, month, day, hour, minute, second) |
| Dates.NotAfter | serpyco.py:73 | no ensures: the definition of datetime `<=`, that is `<` or equal |
| Dates.BeforeTransitive | serpyco.py:73 | datetime `<` is transitive |
| Dates.NotAfterTransitive | serpyco.py:73 | datetime `<=` is transitive |
| Dates.Trichotomy | serpyco.py:73 | any two datetimes are `<`, `==` or `>`, and not both `<` and `>` |
| Dates.NotAfterAntisymmetric | serpyco.py:73 | `a <= b` and `b <= a` give `a == b` |
| Dates.Format | serpyco.py:81 | the rendering has 19 characters, no `/`, and ends in a digit |
| Dates.FormatFields | serpyco.py:81 | the columns read back as year, minute, day, hour, minute, second, with `-`, `-`, space, `.`, `.` between |
| Dates.StampFields | serpyco.py:81 | each rendered field sits in its fixed columns of the layout |
| Dates.FormatIgnoresMonth | serpyco.py:81 | two datetimes render alike exactly when they agree on every field except the month |
| Paths.SplitExt | serpyco.py:78 | the root and the extension concatenate back to the path; the extension is empty or a dot followed by neither `.` nor `/`, after a root whose last component is not all dots |
| Paths.SplitExtJoin | serpyco.py:78 | a root followed by an extension splits back into exactly those two |
| Paths.SplitExtNoDot | serpyco.py:78 | a path whose final component has no dot has an empty extension |
| Paths.DirName | serpyco.py:79 | `dirname` is a prefix of the path, empty exactly when the path has no `/`, and ends in a non-slash unless it is all slashes |
| Paths.DirNameHead | serpyco.py:79 | when the path has a `/`, `dirname` is the head up to the last `/` minus exactly a trailing run of slashes, and the whole head only when that head is all slashes; with the row above this fixes `dirname` on every path |
| Paths.StripHeadExact | serpyco.py:79 | stripping a head removes exactly a trailing run of slashes, and nothing from a head made only of slashes |
| Paths.DirNameExamples | serpyco.py:79 | `dirname("a//b")` is "a" and `dirname("/x")` is "/" |
| Paths.RStripSlashes | serpyco.py:79 | `rstrip('/')` removes exactly a trailing run of slashes |
| Paths.DirNameJoin | serpyco.py:79 | the directory of `d + "/" + b` is `d` when `b` is one component and `d` does not end in `/` |
| Paths.DirNameOfRoot | serpyco.py:78-79 | taking `dirname` of the root that `splitext` leaves is the same as taking it of the whole file name |
| DateSort.WithDateMember | serpyco.py:73 | the group of a date holds exactly the entries with that date |
| DateSort.InsertWithDate | serpyco.py:73 | inserting an entry puts it in front of its date's group and leaves every other group as it was |
| DateSort.InsertSorted | serpyco.py:73 | inserting into an ascending list keeps it ascending |
| DateSort.SortByDate | serpyco.py:73 | the sort is a permutation of its input, ascending by date, and keeps the input order among equal dates |
| DateSort.SortedSameGroupsEqual | serpyco.py:73 | two ascending lists with the same entries, in the same order, for every date are equal |
| DateSort.StableSortUnique | serpyco.py:73 | every stable sort by date of a list equals `SortByDate` of it |
| DateSort.SortKeepsFilenames | serpyco.py:73 | sorting permutes the file names |
| RenamePlan.Directory | serpyco.py:78-79 | `dirname(name) or '.'` is the file's own `dirname`, or "." when it has no `/`; it never ends in `/` unless it is all slashes |
| RenamePlan.Extension | serpyco.py:78 | the extension kept for the new name is empty or a real extension, and completes the root back to the file name |
| RenamePlan.SortInPlace | serpyco.py:73 | the array is overwritten with the stable sort by date of its old contents |
| RenamePlan.SortKeepsValid | serpyco.py:73 | sorting keeps every date valid |
| RenamePlan.SequentialName | serpyco.py:92 | no ensures: the definition of `formatspec % (path, prefix, i, ext)`, that is directory, `/`, prefix, index padded to the width, extension; `SequentialNameJoin`, `SequentialNamesDistinct` and `SequentialNameParts` state its properties |
| RenamePlan.DateName | serpyco.py:86-89 | no ensures: the definition of the two `new_name` branches, directory, `/`, rendered date, `-k` when the counter is nonzero, extension; `DateNameJoin`, `DateNameCounter` and `DateNameParts` state its properties |
| RenamePlan.NewName | serpyco.py:80-92 | no ensures: the definition of the new name of sorted position `i`; date mode is `DateName` with counter `RunIndex(s, i)`, sequential mode is `SequentialName` with index `i` and width `Width(|s|)`; `GenerateRenamePlan` and `PlanSorted` tie the plan to it |
| RenamePlan.GenerateRenamePlan | serpyco.py:62-93 | the caller's array ends up stably sorted by date, the plan has one pair per entry, its old names are a permutation of the input's, and the pair at position `i` is the sorted entry's name and `NewName` of `i` |
| RenamePlan.PlanSorted | serpyco.py:74-93 | the loop pairs each position of the sorted array with the entry's name and its `NewName`, `counter` and `previous_date` tracking the run of equal dates |
| RenamePlan.RunIndex | serpyco.py:82-85 | the counter at position `i` counts back to the start of its run of equal dates, and the entry before that run has another date |
| RenamePlan.CounterStep | serpyco.py:82-85 | one step of the counter update gives the next position's run index: one more when the date repeats, 0 otherwise |
| RenamePlan.RunIndexAdvance | serpyco.py:82-85 | inside a run of equal dates the counter grows by one per entry |
| RenamePlan.RunIndexInRun | serpyco.py:82-89 | the first entry of a run has counter 0 (no suffix) and the `k`-th entry after it has counter `k` |
| RenamePlan.RunIndexResets | serpyco.py:82-85 | the counter is 0 exactly where the date differs from the previous entry's |
| RenamePlan.DateNameJoin | serpyco.py:86-89 | a date name is `dir/stem ext` with the rendered date and the collision suffix as stem |
| RenamePlan.SequentialNameJoin | serpyco.py:92 | a sequential name is `dir/stem ext` with the prefix and the padded index as stem |
| RenamePlan.SequentialNamesDistinct | serpyco.py:92 | in sequential mode, two positions of the plan get different new names |
| RenamePlan.SequentialNameIndex | serpyco.py:92 | equal sequential names with paddings of one length have equal indices, whatever the directories and extensions |
| RenamePlan.DateNamesDistinctInRun | serpyco.py:82-89 | in date mode, two entries of one run of equal dates get different new names |
| RenamePlan.DateNameCounter | serpyco.py:86-89 | equal date names for one date have equal counters, whatever the directories and extensions |
| RenamePlan.SuffixCancel | serpyco.py:86-89 | the collision suffix followed by an extension determines the counter |
| RenamePlan.DateModeIgnoresPrefix | serpyco.py:86-89 | in date mode the new name does not depend on the prefix |
| RenamePlan.SequentialNameParts | serpyco.py:78-92 | a sequential name keeps the file's directory and extension: `dirname` and `splitext` of the new name give them back |
| RenamePlan.DateNameParts | serpyco.py:78-89 | a date name keeps the file's directory and its nonempty extension |

## Left out

- `extract_date_from_exif` reads EXIF metadata through the pyexiv2 library from files on disk. It is not part of this model; dates are inputs.
- `rename_files` prints and calls `os.rename`. It is I/O and is not part of this model.
- The command-line block (`optparse`, stderr and exit status) is not part of this model.
- The width is computed as `ceil(log10(n))` in floating point in the source. The model uses the exact integer definition, the least `w` with `10^w >= n`; floating-point rounding is not modelled.
- The plan is a generator in the source, so the width computation (serpyco.py:71), its `log10(0)` error for an empty list and the in-place sort (serpyco.py:73) all happen only when the plan is first consumed. The command-line block consumes it only under `-n` (serpyco.py:146-147). The model builds the whole sequence at once and sorts on the call; this timing is not modelled.
- Dates are six integer fields. Microseconds, time zones and the calendar validity of the day are not modelled; the order is plain lexicographic order on the fields.
- Format: `strftime` is modelled only for years 1900 to 9999. Python 2's `strftime` refuses years before 1900, and the upper bound keeps `%Y` at four digits. Locale and platform details of `strftime` are not modelled.
- GenerateRenamePlan: an empty list is a precondition violation, where the source raises ValueError from `log10(0)` at serpyco.py:71 once the plan is consumed. Entries without a date cannot be expressed. For such an entry the source raises IndexError in the sort key at serpyco.py:73, once the plan is consumed (the function is a generator).
- GenerateRenamePlan: the dates are required valid only in date-as-name mode, the one mode that renders them.
- DateNamesDistinctInRun: distinctness is proved only inside one run of equal dates. Across runs, the source can produce equal names, because the rendering drops the month.
- SequentialNameParts: proved only for a prefix without `/` (and without `.` when the file has no extension), and for a file not directly under the root `/`. Otherwise the prefix or the root's slashes change what `splitext` and `dirname` see.
- DateNameParts: proved only for files with an extension and not directly under `/`. Without an extension, the `.` separators of the rendered time are taken for one.
