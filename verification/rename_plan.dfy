/** `generate_rename_plan`: sorts the `(filename, date)` list in place by date
    and pairs every file, in sorted order, with its new name, either
    `dir/<prefix><zero-padded index><ext>` (sequential mode) or
    `dir/<formatted date>[-k]<ext>` (date-as-name mode). */
module RenamePlan {
  import opened Decimal
  import opened Dates
  import opened Paths
  import opened DateSort

  datatype Option<T> = None | Some(value: T)

  /** `os.path.dirname(name) or '.'`, `name` being the file name without its
      extension: the file's own directory, or "." when it has none. */
  function Directory(filename: string): (d: string)
    ensures d == if '/' in filename then DirName(filename) else "."
    ensures d != [] && (AllSlashes(d) || d[|d| - 1] != '/')
  {
    DirNameOfRoot(filename);
    var d := DirName(SplitExt(filename).0);
    if d == [] then "." else d
  }

  /** The extension `os.path.splitext` gives the file, kept unchanged. */
  function Extension(filename: string): (e: string)
    ensures e == [] || IsExtension(e)
    ensures SplitExt(filename).0 + e == filename
  {
    SplitExt(filename).1
  }

  /** The `%s/%s%s` shape every new name has: a directory, a slash, a stem
      and an extension. */
  function PathJoin(dir: string, stem: string, ext: string): string {
    dir + "/" + stem + ext
  }

  /** `formatspec % (path, prefix, i, ext)` with `formatspec` built as
      `'%s/%s%0<width>d%s'`. */
  function SequentialName(filename: string, prefix: string, index: nat, width: nat): string {
    Directory(filename) + "/" + prefix + ZeroPad(index, width) + Extension(filename)
  }

  /** The collision suffix: nothing for the first entry of a run of equal
      dates, `-k` for the `k`-th entry after it. */
  function CollisionSuffix(counter: nat): string {
    if counter == 0 then [] else "-" + Digits(counter)
  }

  /** `'%s/%s%s' % (path, date_str, ext)` when the counter is 0, else
      `'%s/%s-%s%s' % (path, date_str, counter, ext)`. The prefix plays no part. */
  function DateName(filename: string, date: DateTime, counter: nat): string
    requires Valid(date)
  {
    if counter != 0 then Directory(filename) + "/" + Format(date) + "-" + Digits(counter) + Extension(filename)
    else Directory(filename) + "/" + Format(date) + Extension(filename)
  }

  /** The value of `counter` when the loop handles position `i` of the sorted
      list: how many entries before `i` share its date without a different
      date in between. */
  function RunIndex(s: seq<Entry>, i: nat): (k: nat)
    requires i < |s|
    ensures k <= i
    ensures forall j :: i - k <= j <= i ==> s[j].date == s[i].date
    ensures i - k == 0 || s[i - k - 1].date != s[i].date
  {
    if i == 0 || s[i].date != s[i - 1].date then 0 else RunIndex(s, i - 1) + 1
  }

  predicate DatesValid(s: seq<Entry>) {
    forall i :: 0 <= i < |s| ==> Valid(s[i].date)
  }

  /** The new name of the entry at position `i` of the sorted list `s`. */
  function NewName(s: seq<Entry>, prefix: string, dateAsFilename: bool, i: nat): string
    requires i < |s|
    requires dateAsFilename ==> Valid(s[i].date)
  {
    if dateAsFilename then DateName(s[i].filename, s[i].date, RunIndex(s, i))
    else SequentialName(s[i].filename, prefix, i, Width(|s|))
  }

  /** The old names of a rename plan. */
  function Sources(plan: seq<(string, string)>): (r: seq<string>)
    ensures |r| == |plan| && forall i :: 0 <= i < |plan| ==> r[i] == plan[i].0
  {
    if plan == [] then [] else [plan[0].0] + Sources(plan[1..])
  }

  /** `generate_rename_plan(files_and_dates, prefix, date_as_filename)`. The
      caller's list is left sorted by date (the sort is in place); the plan
      has one `(old, new)` pair per entry, in that sorted order, its old names
      are a permutation of the input's, and each new name is `NewName` of its
      position. An empty list is refused, as `log10(0)` fails in the source. */
  method GenerateRenamePlan(filesAndDates: array<Entry>, prefix: string, dateAsFilename: bool)
    returns (plan: seq<(string, string)>)
    requires filesAndDates.Length > 0
    requires dateAsFilename ==> DatesValid(filesAndDates[..])
    modifies filesAndDates
    ensures filesAndDates[..] == SortByDate(old(filesAndDates[..]))
    ensures |plan| == filesAndDates.Length
    ensures multiset(Sources(plan)) == multiset(Filenames(old(filesAndDates[..])))
    ensures dateAsFilename ==> DatesValid(filesAndDates[..])
    ensures forall i :: 0 <= i < |plan| ==>
      plan[i] == (filesAndDates[i].filename, NewName(filesAndDates[..], prefix, dateAsFilename, i))
  {
    var digitsForCounter := Width(filesAndDates.Length);
    ghost var input := filesAndDates[..];
    SortInPlace(filesAndDates);
    if dateAsFilename {
      SortKeepsValid(input);
    }
    plan := PlanSorted(filesAndDates, digitsForCounter, prefix, dateAsFilename);
    assert Sources(plan) == Filenames(filesAndDates[..]);
    SortKeepsFilenames(input);
  }

  /** The loop of `generate_rename_plan` over the already sorted list, with
      `digits_for_counter` computed beforehand from the list's length: one
      `(old, new)` pair per entry, the new name being `NewName` of the entry's
      position. `counter` and `previous_date` carry the run of equal dates. */
  method PlanSorted(filesAndDates: array<Entry>, digitsForCounter: nat, prefix: string, dateAsFilename: bool)
    returns (plan: seq<(string, string)>)
    requires filesAndDates.Length > 0 && digitsForCounter == Width(filesAndDates.Length)
    requires dateAsFilename ==> DatesValid(filesAndDates[..])
    ensures |plan| == filesAndDates.Length
    ensures forall i :: 0 <= i < |plan| ==>
      plan[i] == (filesAndDates[i].filename, NewName(filesAndDates[..], prefix, dateAsFilename, i))
  {
    ghost var sorted := filesAndDates[..];
    var previousDate: Option<DateTime> := None;
    var counter: nat := 0;
    plan := [];
    var i := 0;
    while i < filesAndDates.Length
      invariant 0 <= i <= filesAndDates.Length && |plan| == i
      invariant IsPlanPrefix(plan, sorted, prefix, dateAsFilename)
      invariant dateAsFilename && i > 0 ==> previousDate == Some(sorted[i - 1].date) && counter == RunIndex(sorted, i - 1)
      invariant i == 0 ==> previousDate == None
    {
      var Entry(filename, date) := filesAndDates[i];
      assert filename == sorted[i].filename && date == sorted[i].date;
      var (name, ext) := SplitExt(filename);
      var path := DirName(name);
      if path == [] {
        path := ".";
      }
      assert path == Directory(filename) && ext == Extension(filename);
      var newName;
      if dateAsFilename {
        var dateStr := Format(date);
        CounterStep(sorted, i, previousDate, counter);
        if previousDate == Some(date) {
          counter := counter + 1;
        } else {
          counter := 0;
        }
        if counter != 0 {
          newName := path + "/" + dateStr + "-" + Digits(counter) + ext;
        } else {
          newName := path + "/" + dateStr + ext;
        }
        previousDate := Some(date);
      } else {
        newName := path + "/" + prefix + ZeroPad(i, digitsForCounter) + ext;
      }
      PlanPrefixExtend(plan, sorted, prefix, dateAsFilename, (filename, newName));
      plan := plan + [(filename, newName)];
      i := i + 1;
    }
    forall k | 0 <= k < |plan|
      ensures plan[k] == (filesAndDates[k].filename, NewName(filesAndDates[..], prefix, dateAsFilename, k))
    {
      PlanPrefixAt(plan, sorted, prefix, dateAsFilename, k);
    }
  }

  /** `plan` pairs the first `|plan|` entries of `s`, in order, with their new names. */
  predicate IsPlanPrefix(plan: seq<(string, string)>, s: seq<Entry>, prefix: string, dateAsFilename: bool)
    requires |plan| <= |s|
    requires dateAsFilename ==> DatesValid(s)
  {
    plan == [] ||
      var k := |plan| - 1;
      IsPlanPrefix(plan[..k], s, prefix, dateAsFilename) && plan[k] == (s[k].filename, NewName(s, prefix, dateAsFilename, k))
  }

  /** Appending the pair of the next position extends a plan prefix. */
  lemma PlanPrefixExtend(plan: seq<(string, string)>, s: seq<Entry>, prefix: string, dateAsFilename: bool,
                         x: (string, string))
    requires |plan| < |s|
    requires dateAsFilename ==> DatesValid(s)
    requires IsPlanPrefix(plan, s, prefix, dateAsFilename)
    requires x == (s[|plan|].filename, NewName(s, prefix, dateAsFilename, |plan|))
    ensures IsPlanPrefix(plan + [x], s, prefix, dateAsFilename)
  {
    assert (plan + [x])[..|plan|] == plan;
  }

  /** Every pair of a plan prefix is the pair of its position. */
  lemma {:induction false} PlanPrefixAt(plan: seq<(string, string)>, s: seq<Entry>, prefix: string, dateAsFilename: bool, k: nat)
    requires |plan| <= |s|
    requires dateAsFilename ==> DatesValid(s)
    requires IsPlanPrefix(plan, s, prefix, dateAsFilename)
    requires k < |plan|
    ensures plan[k] == (s[k].filename, NewName(s, prefix, dateAsFilename, k))
    decreases |plan|
  {
    if k < |plan| - 1 {
      PlanPrefixAt(plan[..|plan| - 1], s, prefix, dateAsFilename, k);
    }
  }

  /** `files_and_dates.sort(key=operator.itemgetter(1))`: the list is
      overwritten, in place, with its stable sort by date. */
  method SortInPlace(a: array<Entry>)
    modifies a
    ensures a[..] == SortByDate(old(a[..]))
  {
    var sorted := SortByDate(a[..]);
    forall k | 0 <= k < a.Length {
      a[k] := sorted[k];
    }
  }

  /** Sorting keeps every date of the list. */
  lemma SortKeepsValid(s: seq<Entry>)
    requires DatesValid(s)
    ensures DatesValid(SortByDate(s))
  {
    var r := SortByDate(s);
    forall k | 0 <= k < |r| ensures Valid(r[k].date) {
      assert r[k] in multiset(s);
    }
  }

  /** The counter of the `m`-th entry after the start of a run is `m`. */
  lemma {:induction false} RunIndexAdvance(s: seq<Entry>, i: nat, j: nat)
    requires i <= j < |s|
    requires forall k :: i <= k <= j ==> s[k].date == s[i].date
    ensures RunIndex(s, j) == RunIndex(s, i) + (j - i)
    decreases j - i
  {
    if i < j {
      RunIndexAdvance(s, i, j - 1);
    }
  }

  /** Date mode's collision rule: the first entry of a run of equal dates gets
      counter 0 (no suffix) and the `k`-th entry after it gets counter `k`;
      the counter is back to 0 wherever the date changes. */
  lemma RunIndexInRun(s: seq<Entry>, start: nat, j: nat)
    requires start <= j < |s|
    requires start == 0 || s[start - 1].date != s[start].date
    requires forall k :: start <= k <= j ==> s[k].date == s[start].date
    ensures RunIndex(s, j) == j - start
    ensures RunIndex(s, start) == 0
  {
    RunIndexAdvance(s, start, j);
  }

  /** The counter is 0 exactly at the start of a run. */
  lemma RunIndexResets(s: seq<Entry>, i: nat)
    requires 0 < i < |s|
    ensures RunIndex(s, i) == 0 <==> s[i - 1].date != s[i].date
  {
  }

  /** The loop's counter update: with `previous` the date of the entry before
      position `i` (none at 0) and `counter` that entry's counter, the counter
      of position `i` is one more when the date repeats and 0 otherwise. */
  lemma CounterStep(s: seq<Entry>, i: nat, previous: Option<DateTime>, counter: nat)
    requires i < |s|
    requires i == 0 ==> previous == None
    requires i > 0 ==> previous == Some(s[i - 1].date) && counter == RunIndex(s, i - 1)
    ensures RunIndex(s, i) == if previous == Some(s[i].date) then counter + 1 else 0
  {
  }

  /** A date name is a `PathJoin` whose stem is the rendered date followed
      by the collision suffix. */
  lemma DateNameJoin(filename: string, date: DateTime, counter: nat)
    requires Valid(date)
    ensures DateName(filename, date, counter) ==
      PathJoin(Directory(filename), Format(date) + CollisionSuffix(counter), Extension(filename))
  {
    SuffixJoin(Directory(filename), Format(date), counter, Extension(filename));
  }

  /** Regroups `d/f[-k]e` as a `PathJoin` with stem `f` plus the suffix. */
  lemma SuffixJoin(d: string, f: string, counter: nat, e: string)
    ensures (if counter != 0 then d + "/" + f + "-" + Digits(counter) + e else d + "/" + f + e)
      == PathJoin(d, f + CollisionSuffix(counter), e)
  {
    if counter != 0 {
      AppendAssoc(d + "/" + f, "-", Digits(counter));
      AppendAssoc(d + "/", f, "-" + Digits(counter));
    } else {
      assert f + [] == f;
    }
  }

  /** A sequential name is a `PathJoin` whose stem is the prefix followed by
      the padded index. */
  lemma SequentialNameJoin(filename: string, prefix: string, index: nat, width: nat)
    ensures SequentialName(filename, prefix, index, width) ==
      PathJoin(Directory(filename), prefix + ZeroPad(index, width), Extension(filename))
  {
    AppendAssoc(Directory(filename) + "/", prefix, ZeroPad(index, width));
  }

  lemma AppendAssoc(a: string, b: string, c: string)
    ensures a + b + c == a + (b + c)
  {
  }

  /** Regroups a joined name whose stem starts with `mid`. */
  lemma PathJoinSplit(d: string, mid: string, u: string, e: string)
    ensures PathJoin(d, mid + u, e) == d + "/" + mid + (u + e)
  {
    AppendAssoc(d + "/", mid + u, e);
    AppendAssoc(mid, u, e);
    AppendAssoc(d + "/", mid, u + e);
  }

  /** Cancels a common `/`-separated head: if `d1 + "/" + mid + t1` equals
      `d2 + "/" + mid + t2` and neither tail holds a `/`, the directories and
      the tails are equal. */
  lemma JoinCancel(d1: string, d2: string, mid: string, t1: string, t2: string)
    requires '/' !in t1 && '/' !in t2
    requires d1 + "/" + mid + t1 == d2 + "/" + mid + t2
    ensures d1 == d2 && t1 == t2
  {
    var p := d1 + "/" + mid + t1;
    LastSlashOfJoin(d1, mid, t1);
    LastSlashOfJoin(d2, mid, t2);
    assert |d1| == |d2| && |t1| == |t2|;
    assert d1 == p[..|d1|];
    assert d2 == p[..|d2|];
    assert t1 == p[|p| - |t1|..];
    assert t2 == p[|p| - |t2|..];
  }

  /** Where the last `/` of `d + "/" + mid + t` sits when `t` has none. */
  lemma LastSlashOfJoin(d: string, mid: string, t: string)
    requires '/' !in t
    ensures RFind(d + "/" + mid + t, '/') == |d| + (if '/' in mid then 1 + RFind(mid, '/') else 0)
  {
    RFindAppend(d + "/" + mid, t, '/');
    RFindAppend(d + "/", mid, '/');
    RFindAppend(d, "/", '/');
  }

  /** The number of leading decimal digits of a string. */
  function LeadingDigits(s: string): (k: nat)
    ensures k <= |s| && IsDecimal(s[..k])
    ensures k == |s| || !IsDigit(s[k])
  {
    if s == [] || !IsDigit(s[0]) then 0
    else
      var k := LeadingDigits(s[1..]);
      assert s[..k + 1] == [s[0]] + s[1..][..k];
      k + 1
  }

  lemma {:induction false} LeadingDigitsOf(digits: string, ext: string)
    requires IsDecimal(digits)
    requires ext == [] || ext[0] == '.'
    ensures LeadingDigits(digits + ext) == |digits|
    decreases |digits|
  {
    if digits != [] {
      assert (digits + ext)[1..] == digits[1..] + ext;
      LeadingDigitsOf(digits[1..], ext);
    }
  }

  /** A suffix followed by an extension starts with `-` exactly when the
      counter is nonzero, and then continues with the counter's digits. */
  lemma SuffixShape(k: nat, e: string)
    requires e == [] || e[0] == '.'
    ensures var x := CollisionSuffix(k) + e;
      && (k != 0 <==> x != [] && x[0] == '-')
      && (k != 0 ==> x[1..] == Digits(k) + e)
  {
    if k != 0 {
      assert CollisionSuffix(k) + e == ['-'] + (Digits(k) + e);
    }
  }

  /** A suffix and an extension can be told apart: equal `suffix + ext`
      strings come from equal counters. */
  lemma SuffixCancel(k1: nat, k2: nat, e1: string, e2: string)
    requires e1 == [] || e1[0] == '.'
    requires e2 == [] || e2[0] == '.'
    requires CollisionSuffix(k1) + e1 == CollisionSuffix(k2) + e2
    ensures k1 == k2
  {
    SuffixShape(k1, e1);
    SuffixShape(k2, e2);
    if k1 != 0 {
      var y := (CollisionSuffix(k1) + e1)[1..];
      var d1, d2 := Digits(k1), Digits(k2);
      LeadingDigitsOf(d1, e1);
      LeadingDigitsOf(d2, e2);
      assert d1 == (d1 + e1)[..|d1|];
      assert d2 == (d2 + e2)[..|d2|];
      DigitsInjective(k1, k2);
    }
  }

  /** Sequential mode gives every entry of the plan its own name. */
  lemma SequentialNamesDistinct(s: seq<Entry>, prefix: string, i: nat, j: nat)
    requires i < j < |s|
    ensures NewName(s, prefix, false, i) != NewName(s, prefix, false, j)
  {
    var w := Width(|s|);
    var a, b := s[i].filename, s[j].filename;
    if SequentialName(a, prefix, i, w) == SequentialName(b, prefix, j, w) {
      PaddedIndexLength(|s|, i);
      PaddedIndexLength(|s|, j);
      SequentialNameIndex(a, b, prefix, i, j, w);
    }
  }

  /** Two sequential names with paddings of one length are equal only for
      equal indices, whatever the directories and extensions. */
  lemma SequentialNameIndex(a: string, b: string, prefix: string, i: nat, j: nat, w: nat)
    requires |ZeroPad(i, w)| == |ZeroPad(j, w)|
    requires SequentialName(a, prefix, i, w) == SequentialName(b, prefix, j, w)
    ensures i == j
  {
    var pi, pj := ZeroPad(i, w), ZeroPad(j, w);
    SequentialNameJoin(a, prefix, i, w);
    SequentialNameJoin(b, prefix, j, w);
    var ta, tb := pi + Extension(a), pj + Extension(b);
    DecimalHasNoSeparator(pi);
    DecimalHasNoSeparator(pj);
    PathJoinSplit(Directory(a), prefix, pi, Extension(a));
    PathJoinSplit(Directory(b), prefix, pj, Extension(b));
    JoinCancel(Directory(a), Directory(b), prefix, ta, tb);
    assert pi == ta[..|pi|];
    assert pj == tb[..|pj|];
    ZeroPadInjective(i, j, w);
  }

  /** Date mode gives the entries of one run of equal dates pairwise distinct
      names, whatever their directories and extensions. */
  lemma DateNamesDistinctInRun(s: seq<Entry>, prefix: string, i: nat, j: nat)
    requires DatesValid(s)
    requires i < j < |s|
    requires forall k :: i <= k <= j ==> s[k].date == s[i].date
    ensures NewName(s, prefix, true, i) != NewName(s, prefix, true, j)
  {
    RunIndexAdvance(s, i, j);
    var date := s[i].date;
    if DateName(s[i].filename, date, RunIndex(s, i)) == DateName(s[j].filename, date, RunIndex(s, j)) {
      DateNameCounter(s[i].filename, s[j].filename, date, RunIndex(s, i), RunIndex(s, j));
    }
  }

  /** Date mode takes no account of the prefix. */
  lemma DateModeIgnoresPrefix(s: seq<Entry>, prefix1: string, prefix2: string, i: nat)
    requires DatesValid(s) && i < |s|
    ensures NewName(s, prefix1, true, i) == NewName(s, prefix2, true, i)
  {
  }

  /** Date names for one date are equal only for equal counters, whatever
      the directories and extensions. */
  lemma DateNameCounter(a: string, b: string, date: DateTime, ki: nat, kj: nat)
    requires Valid(date)
    requires DateName(a, date, ki) == DateName(b, date, kj)
    ensures ki == kj
  {
    DateNameJoin(a, date, ki);
    DateNameJoin(b, date, kj);
    var ta, tb := CollisionSuffix(ki) + Extension(a), CollisionSuffix(kj) + Extension(b);
    if ki != 0 { DecimalHasNoSeparator(Digits(ki)); }
    if kj != 0 { DecimalHasNoSeparator(Digits(kj)); }
    PathJoinSplit(Directory(a), Format(date), CollisionSuffix(ki), Extension(a));
    PathJoinSplit(Directory(b), Format(date), CollisionSuffix(kj), Extension(b));
    JoinCancel(Directory(a), Directory(b), Format(date), ta, tb);
    SuffixCancel(ki, kj, Extension(a), Extension(b));
  }

  /** A name built as `dir/stem ext` splits back into its directory and its
      extension, when the stem ends in a digit and holds no `/`. */
  lemma NameParts(dir: string, stem: string, ext: string)
    requires dir != [] && dir[|dir| - 1] != '/'
    requires stem != [] && IsDigit(stem[|stem| - 1]) && '/' !in stem
    requires ext == [] || IsExtension(ext)
    requires ext == [] ==> '.' !in stem
    ensures SplitExt(PathJoin(dir, stem, ext)).1 == ext
    ensures DirName(PathJoin(dir, stem, ext)) == dir
  {
    var root := dir + "/" + stem;
    RFindAppend(dir + "/", stem, '/');
    RFindAppend(dir, "/", '/');
    assert BaseName(root) == stem;
    if ext == [] {
      assert root + ext == root;
      SplitExtNoDot(root);
    } else {
      assert stem[|stem| - 1] != '.';
      SplitExtJoin(root, ext);
    }
    assert '/' !in ext ==> '/' !in stem + ext;
    assert '/' !in ext by {
      if ext != [] {
        forall k | 0 <= k < |ext| ensures ext[k] != '/' { }
      }
    }
    AppendAssoc(dir + "/", stem, ext);
    DirNameJoin(dir, stem + ext);
  }

  /** A sequential name keeps the file's directory and extension, as long as
      the file does not sit directly under the root `/`, the prefix holds no
      `/`, and, for a file without extension, no `.` either. */
  lemma SequentialNameParts(filename: string, prefix: string, index: nat, width: nat)
    requires !AllSlashes(Directory(filename))
    requires '/' !in prefix
    requires Extension(filename) == [] ==> '.' !in prefix
    ensures Extension(SequentialName(filename, prefix, index, width)) == Extension(filename)
    ensures DirName(SequentialName(filename, prefix, index, width)) == Directory(filename)
  {
    var d, e, pad := Directory(filename), Extension(filename), ZeroPad(index, width);
    assert d[|d| - 1] != '/';
    assert |Digits(index)| >= 1 && pad != [];
    SequentialNameJoin(filename, prefix, index, width);
    PaddedNameParts(d, prefix, pad, e);
  }

  /** `NameParts` for a stem made of a prefix and a padded number. */
  lemma PaddedNameParts(d: string, prefix: string, pad: string, e: string)
    requires d != [] && d[|d| - 1] != '/'
    requires pad != [] && IsDecimal(pad)
    requires '/' !in prefix
    requires e == [] || IsExtension(e)
    requires e == [] ==> '.' !in prefix
    ensures SplitExt(PathJoin(d, prefix + pad, e)).1 == e
    ensures DirName(PathJoin(d, prefix + pad, e)) == d
  {
    DecimalHasNoSeparator(pad);
    var stem := prefix + pad;
    assert stem[|stem| - 1] == pad[|pad| - 1];
    NameParts(d, stem, e);
  }

  /** A date name keeps the file's directory and, when the file has one, its
      extension (without one, the dots of the time part would be taken for an
      extension). */
  lemma DateNameParts(filename: string, date: DateTime, counter: nat)
    requires Valid(date)
    requires !AllSlashes(Directory(filename))
    requires Extension(filename) != []
    ensures Extension(DateName(filename, date, counter)) == Extension(filename)
    ensures DirName(DateName(filename, date, counter)) == Directory(filename)
  {
    DateStem(Format(date), counter);
    DateNameJoin(filename, date, counter);
    NameParts(Directory(filename), Format(date) + CollisionSuffix(counter), Extension(filename));
  }

  /** A rendered date followed by its collision suffix ends in a digit and
      holds no `/`. */
  lemma DateStem(f: string, counter: nat)
    requires f != [] && IsDigit(f[|f| - 1]) && '/' !in f
    ensures var stem := f + CollisionSuffix(counter);
      stem != [] && IsDigit(stem[|stem| - 1]) && '/' !in stem
  {
    if counter != 0 {
      var ds := Digits(counter);
      DecimalHasNoSeparator(ds);
      assert CollisionSuffix(counter) == ['-'] + ds;
    }
  }
}
