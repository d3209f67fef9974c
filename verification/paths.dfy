/** The two POSIX path helpers the rename plan relies on: `os.path.splitext`
    and `os.path.dirname`, as pure functions on strings. */
module Paths {

  /** `s.rfind(c)`: the index of the last `c` in `s`, or -1 when there is none. */
  function RFind(s: string, c: char): (i: int)
    ensures -1 <= i < |s|
    ensures i >= 0 ==> s[i] == c
    ensures forall j :: i < j < |s| ==> s[j] != c
    ensures i == -1 <==> c !in s
  {
    RFindBelow(s, c, |s|)
  }

  /** The index of the last `c` among the first `n` characters of `s`, or -1. */
  function RFindBelow(s: string, c: char, n: nat): (i: int)
    requires n <= |s|
    ensures -1 <= i < n
    ensures i >= 0 ==> s[i] == c
    ensures forall j :: i < j < n ==> s[j] != c
  {
    if n == 0 then -1
    else if s[n - 1] == c then n - 1
    else RFindBelow(s, c, n - 1)
  }

  /** The last occurrence is determined by its two defining facts. */
  lemma RFindUnique(s: string, c: char, i: int)
    requires -1 <= i < |s|
    requires i >= 0 ==> s[i] == c
    requires forall j :: i < j < |s| ==> s[j] != c
    ensures RFind(s, c) == i
  {
    if i >= 0 {
      assert s[i] == c;
    }
    var k := RFind(s, c);
    if k >= 0 {
      assert s[k] == c;
    }
  }

  /** Searching a concatenation: the last `c` of `a + b` lies in `b` when `b` has one. */
  lemma RFindAppend(a: string, b: string, c: char)
    ensures RFind(a + b, c) == if c in b then |a| + RFind(b, c) else RFind(a, c)
  {
    var s := a + b;
    if c in b {
      var k := RFind(b, c);
      forall j | |a| + k < j < |s| ensures s[j] != c {
        assert s[j] == b[j - |a|];
      }
      RFindUnique(s, c, |a| + k);
    } else {
      var k := RFind(a, c);
      forall j | k < j < |s| ensures s[j] != c {
        if j >= |a| {
          assert s[j] == b[j - |a|];
        }
      }
      RFindUnique(s, c, k);
    }
  }

  predicate AllDots(s: string) {
    forall i :: 0 <= i < |s| ==> s[i] == '.'
  }

  predicate AllSlashes(s: string) {
    forall i :: 0 <= i < |s| ==> s[i] == '/'
  }

  /** The final component of a path: what follows its last `/`. */
  function BaseName(p: string): string {
    p[RFind(p, '/') + 1..]
  }

  /** The final component holds a character other than `.`, so a following
      dot may start an extension (leading dots of `.bashrc` never do). */
  predicate HasStem(root: string) {
    !AllDots(BaseName(root))
  }

  /** A file extension: a dot followed by characters that are neither `.` nor `/`. */
  predicate IsExtension(e: string) {
    |e| >= 1 && e[0] == '.' && forall i :: 1 <= i < |e| ==> e[i] != '.' && e[i] != '/'
  }

  /** `os.path.splitext(p)`: splits at the last dot of the final component,
      unless only dots precede it in that component; otherwise the extension
      is empty. The parts always concatenate back to `p`. */
  function SplitExt(p: string): (r: (string, string))
    ensures r.0 + r.1 == p
    ensures r.1 == [] || (IsExtension(r.1) && HasStem(r.0))
  {
    var sep := RFind(p, '/');
    var dot := RFind(p, '.');
    if sep < dot && !AllDots(p[sep + 1..dot]) then
      SplitAtDot(p, dot);
      (p[..dot], p[dot..])
    else
      (p, [])
  }

  /** Splitting at the last dot of the final component, when something other
      than dots precedes it there, gives a stem and an extension. */
  lemma SplitAtDot(p: string, dot: int)
    requires 0 <= dot < |p| && dot == RFind(p, '.') && RFind(p, '/') < dot
    requires !AllDots(p[RFind(p, '/') + 1..dot])
    ensures p[..dot] + p[dot..] == p
    ensures IsExtension(p[dot..]) && HasStem(p[..dot])
  {
    assert p[..dot] + p[dot..] == p;
    ExtensionAt(p, dot);
    RootBaseName(p, dot);
  }

  /** From the last dot on, a path with no later `/` is an extension. */
  lemma ExtensionAt(p: string, dot: int)
    requires 0 <= dot < |p| && dot == RFind(p, '.') && RFind(p, '/') < dot
    ensures IsExtension(p[dot..])
  {
    var e := p[dot..];
    forall j | 1 <= j < |e| ensures e[j] != '.' && e[j] != '/' {
      assert e[j] == p[dot + j];
    }
  }

  /** Cutting a path after its last `c` keeps that `c` the last one. */
  lemma RFindPrefix(p: string, c: char, n: int)
    requires RFind(p, c) < n <= |p|
    ensures RFind(p[..n], c) == RFind(p, c)
  {
    var i, q := RFind(p, c), p[..n];
    forall j | i < j < |q| ensures q[j] != c {
      assert q[j] == p[j];
    }
    if i >= 0 {
      assert q[i] == p[i];
    }
    RFindUnique(q, c, i);
  }

  /** The final component of the root is the text between the last `/` and the dot. */
  lemma RootBaseName(p: string, dot: int)
    requires 0 <= dot <= |p| && RFind(p, '/') < dot
    ensures BaseName(p[..dot]) == p[RFind(p, '/') + 1..dot]
  {
    RFindPrefix(p, '/', dot);
  }

  /** Round trip: a stem followed by an extension splits back into the two. */
  lemma SplitExtJoin(root: string, ext: string)
    requires IsExtension(ext) && HasStem(root)
    ensures SplitExt(root + ext) == (root, ext)
  {
    var p := root + ext;
    assert '/' !in ext by {
      forall j | 0 <= j < |ext| ensures ext[j] != '/' { }
    }
    RFindAppend(root, ext, '/');
    RFindAppend(root, ext, '.');
    RFindUnique(ext, '.', 0);
    var sep := RFind(root, '/');
    assert p[sep + 1..|root|] == BaseName(root);
    assert p[..|root|] == root && p[|root|..] == ext;
  }

  /** A path whose final component has no dot has no extension. */
  lemma SplitExtNoDot(p: string)
    requires '.' !in BaseName(p)
    ensures SplitExt(p) == (p, [])
  {
    var sep := RFind(p, '/');
    NoDotAfter(p, sep);
    RFindBounded(p, '.', sep);
  }

  lemma NoDotAfter(p: string, sep: int)
    requires -1 <= sep < |p|
    requires '.' !in p[sep + 1..]
    ensures forall k :: sep < k < |p| ==> p[k] != '.'
  {
  }

  /** No `c` after position `m` puts the last `c` at or before `m`. */
  lemma RFindBounded(p: string, c: char, m: int)
    requires -1 <= m
    requires forall k :: m < k < |p| ==> p[k] != c
    ensures RFind(p, c) <= m
  {
  }

  /** `s.rstrip('/')`. */
  function RStripSlashes(s: string): (r: string)
    ensures |r| <= |s| && r == s[..|r|] && AllSlashes(s[|r|..])
    ensures r == [] || r[|r| - 1] != '/'
  {
    if s != [] && s[|s| - 1] == '/' then
      var r := RStripSlashes(s[..|s| - 1]);
      assert s[|r|..] == s[..|s| - 1][|r|..] + ['/'];
      r
    else s
  }

  /** `os.path.dirname(p)`: everything before the last `/`, with the trailing
      slashes of that head removed unless the head is made only of slashes. */
  function DirName(p: string): (r: string)
    ensures |r| <= |p| && r == p[..|r|]
    ensures r == [] <==> '/' !in p
    ensures r == [] || AllSlashes(r) || r[|r| - 1] != '/'
  {
    StripHead(p[..RFind(p, '/') + 1])
  }

  /** The directory part of a head `.../`: its trailing slashes removed,
      unless it is made only of slashes. */
  function StripHead(head: string): (r: string)
    ensures |r| <= |head| && r == head[..|r|]
    ensures r == [] <==> head == []
    ensures r == [] || AllSlashes(r) || r[|r| - 1] != '/'
  {
    if head != [] && !AllSlashes(head) then RStripSlashes(head) else head
  }

  /** `dirname` keeps the whole head up to the last `/` except a trailing run
      of slashes, and keeps the head whole only when it is all slashes. With
      the ensures of `DirName` this fixes the result on every path. */
  lemma DirNameHead(p: string)
    ensures var r, k := DirName(p), RFind(p, '/');
      '/' in p ==> |r| <= k + 1 && AllSlashes(p[|r|..k + 1]) && (AllSlashes(r) ==> |r| == k + 1)
  {
    var r, k := DirName(p), RFind(p, '/');
    if '/' in p {
      var head := p[..k + 1];
      StripHeadExact(head);
      assert head[|r|..] == p[|r|..k + 1];
    }
  }

  /** `dirname` on a doubled separator and on a file under the root. */
  lemma DirNameExamples()
    ensures DirName("a//b") == "a"
    ensures DirName("/x") == "/"
  {
    RFindUnique("a//b", '/', 2);
    DirNameHead("a//b");
    var r := DirName("a//b");
    assert 1 <= |r| <= 3 && r == "a//b"[..|r|];
    assert r[0] == 'a' && r[|r| - 1] == "a//b"[|r| - 1];
    RFindUnique("/x", '/', 0);
    DirNameHead("/x");
  }

  /** `StripHead` removes exactly a trailing run of slashes, and removes
      nothing from a head made only of slashes. */
  lemma StripHeadExact(head: string)
    ensures var r := StripHead(head);
      AllSlashes(head[|r|..]) && (AllSlashes(r) ==> r == head)
  {
    assert head[0..] == head;
  }

  /** Round trip: the directory of `d + "/" + b` is `d` when `b` is a single
      component and `d` does not end in a slash. */
  lemma DirNameJoin(d: string, b: string)
    requires d != [] && d[|d| - 1] != '/'
    requires '/' !in b
    ensures DirName(d + "/" + b) == d
  {
    var p := d + "/" + b;
    RFindAppend(d + "/", b, '/');
    RFindAppend(d, "/", '/');
    assert p[..|d| + 1] == d + "/";
    assert (d + "/")[..|d|] == d;
  }

  /** An extension holds no `/`. */
  lemma ExtensionHasNoSlash(e: string)
    requires IsExtension(e)
    ensures '/' !in e
  {
    forall j | 0 <= j < |e| ensures e[j] != '/' { }
  }

  /** Splitting off the extension never changes the directory. */
  lemma DirNameOfRoot(p: string)
    ensures DirName(SplitExt(p).0) == DirName(p)
  {
    var r := SplitExt(p);
    if r.1 != [] {
      ExtensionHasNoSlash(r.1);
      RFindAppend(r.0, r.1, '/');
      var k := RFind(r.0, '/') + 1;
      assert p[..k] == r.0[..k];
    }
  }
}
