/** The input list of `(filename, date)` pairs and its in-place stable sort
    by date, `files_and_dates.sort(key=operator.itemgetter(1))`. */
module DateSort {
  import opened Dates

  /** One `(filename, date)` pair of the input list. */
  datatype Entry = Entry(filename: string, date: DateTime)

  /** Ascending by date: no entry is later than one that follows it. */
  predicate SortedByDate(s: seq<Entry>) {
    forall i, j :: 0 <= i < j < |s| ==> NotAfter(s[i].date, s[j].date)
  }

  /** The entries of `s` carrying date `d`, in their order in `s`. */
  function WithDate(s: seq<Entry>, d: DateTime): (r: seq<Entry>)
    ensures |r| <= |s|
  {
    if s == [] then [] else (if s[0].date == d then [s[0]] else []) + WithDate(s[1..], d)
  }

  /** The group of `d` holds exactly the entries of `s` dated `d`. */
  lemma {:induction false} WithDateMember(s: seq<Entry>, d: DateTime, e: Entry)
    ensures e in WithDate(s, d) <==> e in s && e.date == d
    decreases |s|
  {
    if s != [] {
      WithDateMember(s[1..], d, e);
      assert e in s <==> e == s[0] || e in s[1..] by {
        assert s == [s[0]] + s[1..];
      }
    }
  }

  /** Unfolds `WithDate` on a list with a known first entry. */
  lemma WithDateCons(x: Entry, s: seq<Entry>, d: DateTime)
    ensures WithDate([x] + s, d) == (if x.date == d then [x] else []) + WithDate(s, d)
  {
    assert ([x] + s)[1..] == s;
  }

  /** Places `x` in front of the first entry of `s` that is not earlier than
      it, hence in front of every entry with the same date. */
  function Insert(x: Entry, s: seq<Entry>): (r: seq<Entry>)
    ensures multiset(r) == multiset(s) + multiset{x}
  {
    if s == [] || NotAfter(x.date, s[0].date) then [x] + s
    else
      assert s == [s[0]] + s[1..];
      [s[0]] + Insert(x, s[1..])
  }

  /** `x` goes in front of the entries that share its date: inserting it
      prepends it to its date's group and leaves the other groups alone. */
  lemma {:induction false} InsertWithDate(x: Entry, s: seq<Entry>, d: DateTime)
    ensures WithDate(Insert(x, s), d) == if x.date == d then [x] + WithDate(s, d) else WithDate(s, d)
    decreases |s|
  {
    if s == [] || NotAfter(x.date, s[0].date) {
      WithDateCons(x, s, d);
    } else {
      InsertWithDate(x, s[1..], d);
      assert s == [s[0]] + s[1..];
      WithDateCons(s[0], Insert(x, s[1..]), d);
      WithDateCons(s[0], s[1..], d);
      if x.date == d {
        assert s[0].date != d;
      }
    }
  }

  /** An entry not later than any entry of an ascending list can go in front of it. */
  lemma ConsSorted(y: Entry, u: seq<Entry>)
    requires SortedByDate(u)
    requires forall e :: e in u ==> NotAfter(y.date, e.date)
    ensures SortedByDate([y] + u)
  {
    var r := [y] + u;
    forall i, j | 0 <= i < j < |r| ensures NotAfter(r[i].date, r[j].date) {
      assert r[j] == u[j - 1];
      if i > 0 {
        assert r[i] == u[i - 1];
      }
    }
  }

  /** Inserting adds `x` and nothing else. */
  lemma InsertMember(x: Entry, s: seq<Entry>, e: Entry)
    requires e in Insert(x, s)
    ensures e == x || e in s
  {
    assert e in multiset(Insert(x, s));
  }

  /** Inserting into an ascending list keeps it ascending. */
  lemma {:induction false} InsertSorted(x: Entry, s: seq<Entry>)
    requires SortedByDate(s)
    ensures SortedByDate(Insert(x, s))
    decreases |s|
  {
    if s == [] || NotAfter(x.date, s[0].date) {
      forall e | e in s ensures NotAfter(x.date, e.date) {
        FirstIsEarliest(s, e);
        NotAfterTransitive(x.date, s[0].date, e.date);
      }
      ConsSorted(x, s);
    } else {
      var t := Insert(x, s[1..]);
      InsertSorted(x, s[1..]);
      Trichotomy(x.date, s[0].date);
      forall e | e in t ensures NotAfter(s[0].date, e.date) {
        InsertMember(x, s[1..], e);
        if e != x {
          FirstIsEarliest(s, e);
        }
      }
      ConsSorted(s[0], t);
    }
  }

  /** `list.sort` with a key: a stable sort by date, written as an insertion
      sort. It is ascending, a permutation of its input, and keeps the input
      order among entries with equal dates. */
  function SortByDate(s: seq<Entry>): (r: seq<Entry>)
    ensures multiset(r) == multiset(s) && |r| == |s|
    ensures SortedByDate(r)
    ensures forall d :: WithDate(r, d) == WithDate(s, d)
  {
    if s == [] then []
    else
      var t := SortByDate(s[1..]);
      InsertSorted(s[0], t);
      assert s == [s[0]] + s[1..];
      assert |multiset(Insert(s[0], t))| == |s|;
      forall d ensures WithDate(Insert(s[0], t), d) == WithDate(s, d) {
        InsertWithDate(s[0], t, d);
        WithDateCons(s[0], s[1..], d);
      }
      Insert(s[0], t)
  }

  /** The first entry of an ascending list is not later than any of its entries. */
  lemma FirstIsEarliest(t: seq<Entry>, e: Entry)
    requires SortedByDate(t) && e in t
    ensures NotAfter(t[0].date, e.date)
  {
    var i :| 0 <= i < |t| && t[i] == e;
    if i > 0 {
      assert NotAfter(t[0].date, t[i].date);
    }
  }

  /** Two nonempty ascending lists with the same groups start with the same entry. */
  lemma SameGroupsSameFirst(r: seq<Entry>, t: seq<Entry>)
    requires SortedByDate(r) && SortedByDate(t) && r != [] && t != []
    requires forall d :: WithDate(r, d) == WithDate(t, d)
    ensures r[0] == t[0]
  {
    var a, b := r[0], t[0];
    WithDateMember(r, a.date, a);
    WithDateMember(t, a.date, a);
    WithDateMember(t, b.date, b);
    WithDateMember(r, b.date, b);
    FirstIsEarliest(t, a);
    FirstIsEarliest(r, b);
    NotAfterAntisymmetric(a.date, b.date);
    assert r == [a] + r[1..] && t == [b] + t[1..];
    WithDateCons(a, r[1..], a.date);
    WithDateCons(b, t[1..], a.date);
    assert WithDate(r, a.date)[0] == a;
  }

  /** Removing the same first entry from two lists keeps their groups equal. */
  lemma SameGroupTail(a: Entry, r: seq<Entry>, t: seq<Entry>, d: DateTime)
    requires WithDate([a] + r, d) == WithDate([a] + t, d)
    ensures WithDate(r, d) == WithDate(t, d)
  {
    WithDateCons(a, r, d);
    WithDateCons(a, t, d);
    if a.date == d {
      assert ([a] + WithDate(r, d))[1..] == WithDate(r, d);
      assert ([a] + WithDate(t, d))[1..] == WithDate(t, d);
    }
  }

  /** Two ascending lists with the same entries for every date are equal. */
  lemma {:induction false} SortedSameGroupsEqual(r: seq<Entry>, t: seq<Entry>)
    requires SortedByDate(r) && SortedByDate(t)
    requires forall d :: WithDate(r, d) == WithDate(t, d)
    ensures r == t
    decreases |r|
  {
    if r == [] || t == [] {
      var u := if r == [] then t else r;
      if u != [] {
        WithDateMember(u, u[0].date, u[0]);
      }
    } else {
      SameGroupsSameFirst(r, t);
      assert r == [r[0]] + r[1..] && t == [r[0]] + t[1..];
      forall d ensures WithDate(r[1..], d) == WithDate(t[1..], d) {
        SameGroupTail(r[0], r[1..], t[1..], d);
      }
      SortedSameGroupsEqual(r[1..], t[1..]);
    }
  }

  /** Every stable sort by date gives the same list as `SortByDate`: a list
      that is ascending and keeps, date by date, the input's order is it. So
      the insertion sort above stands for Python's own stable sort exactly. */
  lemma StableSortUnique(s: seq<Entry>, r: seq<Entry>)
    requires SortedByDate(r)
    requires forall d :: WithDate(r, d) == WithDate(s, d)
    ensures r == SortByDate(s)
  {
    SortedSameGroupsEqual(r, SortByDate(s));
  }

  /** The file names of a list of entries, in order. */
  function Filenames(s: seq<Entry>): (r: seq<string>)
    ensures |r| == |s| && forall i :: 0 <= i < |s| ==> r[i] == s[i].filename
  {
    if s == [] then [] else [s[0].filename] + Filenames(s[1..])
  }

  lemma {:induction false} InsertFilenames(x: Entry, s: seq<Entry>)
    ensures multiset(Filenames(Insert(x, s))) == multiset(Filenames(s)) + multiset{x.filename}
    decreases |s|
  {
    if s == [] || NotAfter(x.date, s[0].date) {
      assert Filenames([x] + s) == [x.filename] + Filenames(s);
    } else {
      InsertFilenames(x, s[1..]);
      assert Filenames([s[0]] + Insert(x, s[1..])) == [s[0].filename] + Filenames(Insert(x, s[1..]));
      assert Filenames(s) == [s[0].filename] + Filenames(s[1..]);
    }
  }

  /** Sorting only reorders: the file names are a permutation of the input's. */
  lemma {:induction false} SortKeepsFilenames(s: seq<Entry>)
    ensures multiset(Filenames(SortByDate(s))) == multiset(Filenames(s))
  {
    if s != [] {
      SortKeepsFilenames(s[1..]);
      InsertFilenames(s[0], SortByDate(s[1..]));
      assert Filenames(s) == [s[0].filename] + Filenames(s[1..]);
    }
  }
}
