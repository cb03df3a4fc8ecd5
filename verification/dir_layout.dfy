/**
 * The skeleton generator's test harness: the rendering of a directory tree
 * as indented lines (`format_dir`), the comparison of that rendering with an
 * expected layout written inside the test, and the resolution of the paths
 * and environment a generator run receives. Paths follow POSIX `os.path`.
 */
module DirLayout {
  import opened Wrappers

  /** A directory listing: a file, or a directory with its children in the order the file system lists them. */
  datatype Entry = File(name: string) | Dir(name: string, children: seq<Entry>)

  // ---------------------------------------------------------------------------
  // Python's string order (code point by code point, a prefix first)
  // ---------------------------------------------------------------------------

  predicate StrLe(a: string, b: string)
  {
    |a| == 0 || (|b| > 0 && (a[0] < b[0] || (a[0] == b[0] && StrLe(a[1..], b[1..]))))
  }

  lemma {:induction false} StrLeTotal(a: string, b: string)
    ensures StrLe(a, b) || StrLe(b, a)
    decreases |a|
  {
    if |a| > 0 && |b| > 0 && a[0] == b[0] {
      StrLeTotal(a[1..], b[1..]);
    }
  }

  lemma {:induction false} StrLeTransitive(a: string, b: string, c: string)
    requires StrLe(a, b) && StrLe(b, c)
    ensures StrLe(a, c)
    decreases |a|
  {
    if |a| > 0 && a[0] == b[0] && b[0] == c[0] {
      StrLeTransitive(a[1..], b[1..], c[1..]);
    }
  }

  lemma {:induction false} StrLeAntisymmetric(a: string, b: string)
    requires StrLe(a, b) && StrLe(b, a)
    ensures a == b
    decreases |a|
  {
    if |a| > 0 {
      StrLeAntisymmetric(a[1..], b[1..]);
      assert a == [a[0]] + a[1..];
      assert b == [b[0]] + b[1..];
    }
  }

  // ---------------------------------------------------------------------------
  // sorted(os.listdir(...)): a listing ordered by name
  // ---------------------------------------------------------------------------

  predicate SortedByName(es: seq<Entry>)
  {
    forall i, j | 0 <= i < j < |es| :: StrLe(es[i].name, es[j].name)
  }

  predicate DistinctNames(es: seq<Entry>)
  {
    forall i, j | 0 <= i < j < |es| :: es[i].name != es[j].name
  }

  function Insert(x: Entry, s: seq<Entry>): (r: seq<Entry>)
    ensures multiset(r) == multiset(s) + multiset{x}
  {
    if s == [] || StrLe(x.name, s[0].name) then [x] + s
    else
      assert s == [s[0]] + s[1..];
      [s[0]] + Insert(x, s[1..])
  }

  lemma {:induction false} InsertKeepsSorted(x: Entry, s: seq<Entry>)
    requires SortedByName(s)
    ensures SortedByName(Insert(x, s))
  {
    if s == [] || StrLe(x.name, s[0].name) {
      forall y | y in s ensures StrLe(x.name, y.name) {
        var k :| 0 <= k < |s| && s[k] == y;
        if k > 0 {
          StrLeTransitive(x.name, s[0].name, s[k].name);
        }
      }
      ConsKeepsSorted(x, s);
    } else {
      StrLeTotal(x.name, s[0].name);
      InsertKeepsSorted(x, s[1..]);
      var rest := Insert(x, s[1..]);
      forall y | y in rest ensures StrLe(s[0].name, y.name) {
        assert y in multiset(rest);
        if y != x {
          assert y in multiset(s[1..]);
          var k :| 0 <= k < |s[1..]| && s[1..][k] == y;
          assert s[k + 1] == y;
        }
      }
      ConsKeepsSorted(s[0], rest);
    }
  }

  /** An entry placed before a sorted list whose names it does not exceed keeps it sorted. */
  lemma ConsKeepsSorted(h: Entry, rest: seq<Entry>)
    requires SortedByName(rest)
    requires forall y | y in rest :: StrLe(h.name, y.name)
    ensures SortedByName([h] + rest)
  {
    var r := [h] + rest;
    forall i, j | 0 <= i < j < |r| ensures StrLe(r[i].name, r[j].name) {
      assert r[j] == rest[j - 1];
      if i == 0 {
        assert rest[j - 1] in rest;
      } else {
        assert r[i] == rest[i - 1];
      }
    }
  }

  /** `sorted` over a listing: ordered by name, and the same entries. */
  function SortByName(es: seq<Entry>): (r: seq<Entry>)
    ensures multiset(r) == multiset(es)
    ensures SortedByName(r)
  {
    if es == [] then []
    else
      var rest := SortByName(es[1..]);
      InsertKeepsSorted(es[0], rest);
      assert es == [es[0]] + es[1..];
      Insert(es[0], rest)
  }

  lemma {:induction false} PrependKeepsDistinct(x: Entry, s: seq<Entry>)
    requires DistinctNames(s)
    requires forall y | y in s :: y.name != x.name
    ensures DistinctNames([x] + s)
  {
    var r := [x] + s;
    forall i, j | 0 <= i < j < |r| ensures r[i].name != r[j].name {
      if i == 0 {
        assert r[j] == s[j - 1];
      } else {
        assert r[i] == s[i - 1] && r[j] == s[j - 1];
      }
    }
  }

  lemma {:induction false} InsertKeepsDistinct(x: Entry, s: seq<Entry>)
    requires DistinctNames(s)
    requires forall y | y in s :: y.name != x.name
    ensures DistinctNames(Insert(x, s))
  {
    if s == [] || StrLe(x.name, s[0].name) {
      PrependKeepsDistinct(x, s);
    } else {
      assert forall i | 0 < i < |s| :: s[0].name != s[i].name;
      InsertKeepsDistinct(x, s[1..]);
      var rest := Insert(x, s[1..]);
      forall y | y in rest ensures y.name != s[0].name {
        assert y in multiset(rest);
        if y != x {
          assert y in multiset(s[1..]);
          var k :| 0 <= k < |s[1..]| && s[1..][k] == y;
          assert s[k + 1] == y;
        } else {
          assert s[0] in s;
        }
      }
      PrependKeepsDistinct(s[0], rest);
    }
  }

  lemma {:induction false} SortKeepsDistinct(es: seq<Entry>)
    requires DistinctNames(es)
    ensures DistinctNames(SortByName(es))
  {
    if es != [] {
      var rest := SortByName(es[1..]);
      SortKeepsDistinct(es[1..]);
      forall y | y in rest ensures y.name != es[0].name {
        assert y in multiset(rest);
        assert y in multiset(es[1..]);
        var k :| 0 <= k < |es[1..]| && es[1..][k] == y;
        assert es[k + 1] == y;
      }
      InsertKeepsDistinct(es[0], rest);
    }
  }

  /** Two orderings by name of the same entries with distinct names are one and the same. */
  lemma {:induction false} SortedPermutationUnique(a: seq<Entry>, b: seq<Entry>)
    requires SortedByName(a) && SortedByName(b)
    requires DistinctNames(a) && DistinctNames(b)
    requires multiset(a) == multiset(b)
    ensures a == b
    decreases |a|
  {
    if a == [] {
      assert |multiset(b)| == 0;
    } else {
      SortedHeadsAgree(a, b);
      TailKeepsOrder(a);
      TailKeepsOrder(b);
      SameTails(a, b);
      SortedPermutationUnique(a[1..], b[1..]);
      assert a == [a[0]] + a[1..];
      assert b == [b[0]] + b[1..];
    }
  }

  lemma SortedHeadsAgree(a: seq<Entry>, b: seq<Entry>)
    requires a != [] && SortedByName(a) && SortedByName(b)
    requires DistinctNames(b)
    requires multiset(a) == multiset(b)
    ensures b != [] && a[0] == b[0]
  {
    assert a[0] in multiset(b);
    var i :| 0 <= i < |b| && b[i] == a[0];
    assert b[0] in multiset(a);
    var j :| 0 <= j < |a| && a[j] == b[0];
    if i != 0 && j != 0 {
      StrLeAntisymmetric(a[0].name, b[0].name);
      assert false;
    }
  }

  lemma TailKeepsOrder(a: seq<Entry>)
    requires a != [] && SortedByName(a) && DistinctNames(a)
    ensures SortedByName(a[1..]) && DistinctNames(a[1..])
  {
    forall i, j | 0 <= i < j < |a[1..]| ensures StrLe(a[1..][i].name, a[1..][j].name) && a[1..][i].name != a[1..][j].name {
      assert a[1..][i] == a[i + 1] && a[1..][j] == a[j + 1];
    }
  }

  lemma SameTails(a: seq<Entry>, b: seq<Entry>)
    requires a != [] && b != [] && a[0] == b[0]
    requires multiset(a) == multiset(b)
    ensures multiset(a[1..]) == multiset(b[1..])
  {
    assert a == [a[0]] + a[1..];
    assert b == [b[0]] + b[1..];
    assert multiset(a) == multiset{a[0]} + multiset(a[1..]);
    assert multiset(b) == multiset{b[0]} + multiset(b[1..]);
    assert multiset(a[1..]) == multiset(a) - multiset{a[0]};
    assert multiset(b[1..]) == multiset(b) - multiset{b[0]};
  }

  // ---------------------------------------------------------------------------
  // format_dir
  // ---------------------------------------------------------------------------

  /** A child sits inside its directory, so recursion from a directory to its children terminates. */
  lemma ChildBelow(c: Entry, d: Entry)
    requires d.Dir? && c in d.children
    ensures c < d
  {
    var k :| 0 <= k < |d.children| && d.children[k] == c;
  }

  /** The indentation added per directory level. */
  const LevelIndent: string := "    "

  /** The lines of one entry: its name (a directory's with a trailing '/'), then a directory's contents one level deeper. */
  function EntryLines(e: Entry, indent: string): (r: seq<string>)
    decreases e, 2, 0
  {
    match e
    case File(name) => [indent + name]
    case Dir(name, _) => [indent + name + "/"] + FormatDir(e, indent + LevelIndent)
  }

  /** The lines of the entries of `sorted`, children of `d`, one after another. */
  function FormatSorted(d: Entry, sorted: seq<Entry>, indent: string): (r: seq<string>)
    requires d.Dir? && forall c | c in sorted :: c in d.children
    decreases d, 0, |sorted|
  {
    if sorted == [] then []
    else
      ChildBelow(sorted[0], d);
      EntryLines(sorted[0], indent) + FormatSorted(d, sorted[1..], indent)
  }

  /** `format_dir`: the contents of directory `d`, its children in name order, each at `indent`. */
  function FormatDir(d: Entry, indent: string): (r: seq<string>)
    requires d.Dir?
    decreases d, 1, 0
  {
    var sorted := SortByName(d.children);
    assert forall c | c in sorted :: c in multiset(d.children);
    FormatSorted(d, sorted, indent)
  }

  /** The number of entries in a tree, the entry itself included. */
  function Size(e: Entry): nat
    decreases e
  {
    match e
    case File(_) => 1
    case Dir(_, children) => 1 + SizeAll(children)
  }

  function SizeAll(es: seq<Entry>): nat
    decreases es
  {
    if es == [] then 0 else Size(es[0]) + SizeAll(es[1..])
  }

  lemma {:induction false} SizeAllAppend(a: seq<Entry>, b: seq<Entry>)
    ensures SizeAll(a + b) == SizeAll(a) + SizeAll(b)
    decreases |a|
  {
    if a == [] {
      assert a + b == b;
    } else {
      assert (a + b)[1..] == a[1..] + b;
      SizeAllAppend(a[1..], b);
    }
  }

  /** Taking one entry out of a listing. */
  lemma TakeOut(t: seq<Entry>, k: nat)
    requires k < |t|
    ensures multiset(t[..k] + t[k + 1..]) == multiset(t) - multiset{t[k]}
    ensures SizeAll(t) == Size(t[k]) + SizeAll(t[..k] + t[k + 1..])
  {
    TakeOutMultiset(t, k);
    TakeOutSize(t, k);
  }

  lemma TakeOutMultiset(t: seq<Entry>, k: nat)
    requires k < |t|
    ensures multiset(t[..k] + t[k + 1..]) == multiset(t) - multiset{t[k]}
  {
    var u, x, v := t[..k], t[k], t[k + 1..];
    assert t == u + [x] + v;
    assert multiset(t) == multiset(u) + multiset{x} + multiset(v);
    assert multiset(u + v) == multiset(u) + multiset(v);
  }

  lemma TakeOutSize(t: seq<Entry>, k: nat)
    requires k < |t|
    ensures SizeAll(t) == Size(t[k]) + SizeAll(t[..k] + t[k + 1..])
  {
    var u, w, v := t[..k], t[k..], t[k + 1..];
    assert t == u + w;
    SizeAllAppend(u, w);
    assert w[0] == t[k] && w[1..] == v;
    SizeAllAppend(u, v);
  }

  lemma IndexIn(t: seq<Entry>, x: Entry) returns (k: nat)
    requires x in multiset(t)
    ensures k < |t| && t[k] == x
  {
    assert x in t;
    k :| 0 <= k < |t| && t[k] == x;
  }

  lemma HeadOut(s: seq<Entry>)
    requires s != []
    ensures multiset(s[1..]) == multiset(s) - multiset{s[0]}
  {
    assert s == [s[0]] + s[1..];
  }

  lemma {:induction false} SizeAllPermutation(s: seq<Entry>, t: seq<Entry>)
    requires multiset(s) == multiset(t)
    ensures SizeAll(s) == SizeAll(t)
    decreases |s|
  {
    if s == [] {
      assert |multiset(t)| == 0;
    } else {
      var k := IndexIn(t, s[0]);
      TakeOut(t, k);
      HeadOut(s);
      SizeAllPermutation(s[1..], t[..k] + t[k + 1..]);
    }
  }

  lemma {:induction false} EntryLinesCount(e: Entry, indent: string)
    ensures |EntryLines(e, indent)| == Size(e)
    decreases e, 2, 0
  {
    if e.Dir? {
      FormatDirCount(e, indent + LevelIndent);
    }
  }

  lemma {:induction false} FormatSortedCount(d: Entry, sorted: seq<Entry>, indent: string)
    requires d.Dir? && forall c | c in sorted :: c in d.children
    ensures |FormatSorted(d, sorted, indent)| == SizeAll(sorted)
    decreases d, 0, |sorted|
  {
    if sorted != [] {
      ChildBelow(sorted[0], d);
      EntryLinesCount(sorted[0], indent);
      FormatSortedCount(d, sorted[1..], indent);
    }
  }

  /** `format_dir` yields exactly one line per entry below the directory, at every depth. */
  lemma {:induction false} FormatDirCount(d: Entry, indent: string)
    requires d.Dir?
    ensures |FormatDir(d, indent)| == SizeAll(d.children)
    decreases d, 1, 0
  {
    var sorted := SortByName(d.children);
    assert forall c | c in sorted :: c in multiset(d.children);
    FormatSortedCount(d, sorted, indent);
    SizeAllPermutation(sorted, d.children);
  }

  /** The rendering does not depend on the order in which the file system lists a directory. */
  lemma ListingOrderIrrelevant(d1: Entry, d2: Entry, indent: string)
    requires d1.Dir? && d2.Dir?
    requires multiset(d1.children) == multiset(d2.children)
    requires DistinctNames(d1.children) && DistinctNames(d2.children)
    ensures FormatDir(d1, indent) == FormatDir(d2, indent)
  {
    var s1 := SortByName(d1.children);
    var s2 := SortByName(d2.children);
    SortKeepsDistinct(d1.children);
    SortKeepsDistinct(d2.children);
    SortedPermutationUnique(s1, s2);
    assert forall c | c in s1 :: c in multiset(d1.children);
    assert forall c | c in s1 :: c in multiset(d2.children);
    FormatSortedParentIrrelevant(d1, d2, s1, indent);
  }

  lemma {:induction false} FormatSortedParentIrrelevant(d1: Entry, d2: Entry, sorted: seq<Entry>, indent: string)
    requires d1.Dir? && d2.Dir?
    requires forall c | c in sorted :: c in d1.children && c in d2.children
    ensures FormatSorted(d1, sorted, indent) == FormatSorted(d2, sorted, indent)
    decreases |sorted|
  {
    if sorted != [] {
      FormatSortedParentIrrelevant(d1, d2, sorted[1..], indent);
    }
  }

  /** Every line with `p` in front. */
  function Indent(p: string, lines: seq<string>): (r: seq<string>)
    ensures |r| == |lines|
    ensures forall i | 0 <= i < |r| :: r[i] == p + lines[i]
  {
    seq(|lines|, i requires 0 <= i < |lines| => p + lines[i])
  }

  lemma {:induction false} EntryLinesShift(e: Entry, p: string, q: string)
    ensures EntryLines(e, p + q) == Indent(p, EntryLines(e, q))
    decreases e, 2, 0
  {
    match e
    case File(name) =>
      assert p + q + name == p + (q + name);
    case Dir(name, _) =>
      FormatDirShift(e, p, q + LevelIndent);
      assert p + q + LevelIndent == p + (q + LevelIndent);
      assert p + q + name + "/" == p + (q + name + "/");
  }

  lemma {:induction false} FormatSortedShift(d: Entry, sorted: seq<Entry>, p: string, q: string)
    requires d.Dir? && forall c | c in sorted :: c in d.children
    ensures FormatSorted(d, sorted, p + q) == Indent(p, FormatSorted(d, sorted, q))
    decreases d, 0, |sorted|
  {
    if sorted != [] {
      ChildBelow(sorted[0], d);
      EntryLinesShift(sorted[0], p, q);
      FormatSortedShift(d, sorted[1..], p, q);
    }
  }

  /** Rendering one level deeper is rendering at the top with the extra indentation in front of every line. */
  lemma {:induction false} FormatDirShift(d: Entry, p: string, q: string)
    requires d.Dir?
    ensures FormatDir(d, p + q) == Indent(p, FormatDir(d, q))
    decreases d, 1, 0
  {
    var sorted := SortByName(d.children);
    assert forall c | c in sorted :: c in multiset(d.children);
    FormatSortedShift(d, sorted, p, q);
  }

  /** The first line is the first child by name, a directory with its trailing '/'. */
  lemma FormatDirFirstLine(d: Entry, indent: string)
    requires d.Dir? && d.children != []
    ensures var sorted := SortByName(d.children);
            |sorted| > 0 && |FormatDir(d, indent)| > 0 &&
            FormatDir(d, indent)[0] == indent + sorted[0].name + (if sorted[0].Dir? then "/" else "")
  {
    var sorted := SortByName(d.children);
    assert |multiset(sorted)| == |multiset(d.children)|;
    assert forall c | c in sorted :: c in multiset(d.children);
    assert FormatDir(d, indent) == FormatSorted(d, sorted, indent);
    assert FormatSorted(d, sorted, indent)[0] == EntryLines(sorted[0], indent)[0];
  }

  // ---------------------------------------------------------------------------
  // '\n'.join and its inverse
  // ---------------------------------------------------------------------------

  /** `'\n'.join(lines)`. */
  function Join(lines: seq<string>): (r: string)
  {
    if lines == [] then "" else if |lines| == 1 then lines[0] else lines[0] + "\n" + Join(lines[1..])
  }

  /** The lines of a text, as `str.split('\n')` gives them. */
  function Split(s: string): (r: seq<string>)
    ensures |r| >= 1
  {
    if s == [] then [""]
    else
      var rest := Split(s[1..]);
      if s[0] == '\n' then [""] + rest else [[s[0]] + rest[0]] + rest[1..]
  }

  predicate NoNewline(line: string)
  {
    forall k | 0 <= k < |line| :: line[k] != '\n'
  }

  lemma {:induction false} SplitSingleLine(a: string)
    requires NoNewline(a)
    ensures Split(a) == [a]
    decreases |a|
  {
    if a != [] {
      SplitSingleLine(a[1..]);
      assert a == [a[0]] + a[1..];
    }
  }

  lemma {:induction false} SplitFirstLine(a: string, b: string)
    requires NoNewline(a)
    ensures Split(a + "\n" + b) == [a] + Split(b)
    decreases |a|
  {
    if a == [] {
      assert a + "\n" + b == "\n" + b;
      assert ("\n" + b)[1..] == b;
    } else {
      assert (a + "\n" + b)[1..] == a[1..] + "\n" + b;
      SplitFirstLine(a[1..], b);
      assert a == [a[0]] + a[1..];
    }
  }

  /** Splitting the joined lines gives the lines back. */
  lemma {:induction false} SplitJoin(lines: seq<string>)
    requires lines != []
    requires forall i | 0 <= i < |lines| :: NoNewline(lines[i])
    ensures Split(Join(lines)) == lines
    decreases |lines|
  {
    if |lines| == 1 {
      SplitSingleLine(lines[0]);
    } else {
      SplitJoin(lines[1..]);
      SplitFirstLine(lines[0], Join(lines[1..]));
      assert lines == [lines[0]] + lines[1..];
    }
  }

  lemma {:induction false} JoinAppend(a: seq<string>, b: seq<string>)
    requires a != [] && b != []
    ensures Join(a + b) == Join(a) + "\n" + Join(b)
    decreases |a|
  {
    if |a| == 1 {
      assert (a + b)[1..] == b;
    } else {
      assert (a + b)[1..] == a[1..] + b;
      JoinAppend(a[1..], b);
    }
  }

  // ---------------------------------------------------------------------------
  // textwrap.dedent
  // ---------------------------------------------------------------------------

  /** The characters `textwrap.dedent` treats as indentation. */
  predicate IsMarginChar(c: char)
  {
    c == ' ' || c == '\t'
  }

  predicate Blank(line: string)
  {
    forall k | 0 <= k < |line| :: IsMarginChar(line[k])
  }

  /** The indentation a line starts with. */
  function Leading(line: string): (r: string)
    ensures r <= line && Blank(r)
    ensures |r| < |line| ==> !IsMarginChar(line[|r|])
  {
    if line != [] && IsMarginChar(line[0]) then [line[0]] + Leading(line[1..]) else []
  }

  /** The longest common prefix. */
  function CommonPrefix(a: string, b: string): (r: string)
    ensures r <= a && r <= b
    ensures |r| < |a| && |r| < |b| ==> a[|r|] != b[|r|]
  {
    if a != [] && b != [] && a[0] == b[0] then [a[0]] + CommonPrefix(a[1..], b[1..]) else []
  }

  /** The margin: the common indentation of the lines that hold text; none when no line does. */
  function Margin(lines: seq<string>): (r: Option<string>)
    ensures r.None? <==> forall i | 0 <= i < |lines| :: Blank(lines[i])
  {
    if lines == [] then None
    else
      var rest := Margin(lines[1..]);
      if Blank(lines[0]) then rest
      else if rest.None? then Some(Leading(lines[0]))
      else Some(CommonPrefix(Leading(lines[0]), rest.value))
  }

  /** A line of indentation only is emptied. */
  function ClearBlank(line: string): (r: string)
    ensures Blank(line) ==> r == ""
    ensures !Blank(line) ==> r == line
  {
    if Blank(line) then "" else line
  }

  function ClearBlanks(lines: seq<string>): (r: seq<string>)
    ensures |r| == |lines|
    ensures forall i | 0 <= i < |r| :: r[i] == ClearBlank(lines[i])
  {
    seq(|lines|, i requires 0 <= i < |lines| => ClearBlank(lines[i]))
  }

  /** The margin taken off every line that starts with it. */
  function RemoveMargin(m: string, lines: seq<string>): (r: seq<string>)
    ensures |r| == |lines|
    ensures forall i | 0 <= i < |r| :: r[i] == if m <= lines[i] then lines[i][|m|..] else lines[i]
  {
    seq(|lines|, i requires 0 <= i < |lines| => if m <= lines[i] then lines[i][|m|..] else lines[i])
  }

  function DedentLines(lines: seq<string>): (r: seq<string>)
    ensures |r| == |lines|
  {
    var cleared := ClearBlanks(lines);
    match Margin(cleared)
    case None => cleared
    case Some(m) => RemoveMargin(m, cleared)
  }

  /** `textwrap.dedent`. */
  function Dedent(text: string): string
  {
    Join(DedentLines(Split(text)))
  }

  lemma {:induction false} LeadingAfterMargin(p: string, x: string)
    requires Blank(p)
    ensures Leading(p + x) == p + Leading(x)
    decreases |p|
  {
    if p == [] {
      assert p + x == x;
    } else {
      var px, tail := p + x, p[1..];
      assert px[0] == p[0] && px[1..] == tail + x;
      assert Leading(px) == [p[0]] + Leading(tail + x);
      LeadingAfterMargin(tail, x);
      assert p + Leading(x) == [p[0]] + (tail + Leading(x));
    }
  }

  lemma {:induction false} CommonPrefixAfterMargin(p: string, a: string, b: string)
    ensures CommonPrefix(p + a, p + b) == p + CommonPrefix(a, b)
    decreases |p|
  {
    if p == [] {
      assert p + a == a && p + b == b;
    } else {
      var pa, pb, tail := p + a, p + b, p[1..];
      assert pa[0] == p[0] && pa[1..] == tail + a;
      assert pb[0] == p[0] && pb[1..] == tail + b;
      assert CommonPrefix(pa, pb) == [p[0]] + CommonPrefix(tail + a, tail + b);
      CommonPrefixAfterMargin(tail, a, b);
      assert p + CommonPrefix(a, b) == [p[0]] + (tail + CommonPrefix(a, b));
    }
  }

  /** The margin of lines indented by `p` is `p` plus the margin they had. */
  lemma {:induction false} MarginOfIndented(p: string, lines: seq<string>)
    requires Blank(p)
    requires forall i | 0 <= i < |lines| :: !Blank(lines[i])
    ensures Margin(lines).Some? ==> Margin(Indent(p, lines)) == Some(p + Margin(lines).value)
    decreases |lines|
  {
    if lines != [] {
      var ind := Indent(p, lines);
      assert ind[1..] == Indent(p, lines[1..]);
      MarginOfIndented(p, lines[1..]);
      LeadingAfterMargin(p, lines[0]);
      assert !Blank(ind[0]) by {
        var k :| 0 <= k < |lines[0]| && !IsMarginChar(lines[0][k]);
        assert ind[0][|p| + k] == lines[0][k];
      }
      if Margin(lines[1..]).Some? {
        CommonPrefixAfterMargin(p, Leading(lines[0]), Margin(lines[1..]).value);
      }
    }
  }

  lemma {:induction false} MarginSkipsTrailingBlank(lines: seq<string>, blank: string)
    requires Blank(blank)
    ensures Margin(lines + [blank]) == Margin(lines)
    decreases |lines|
  {
    if lines == [] {
      assert lines + [blank] == [blank];
    } else {
      assert (lines + [blank])[1..] == lines[1..] + [blank];
      MarginSkipsTrailingBlank(lines[1..], blank);
    }
  }

  /**
   * An expected layout written inside the test source, one line per line of
   * the rendering, after an opening newline and before a closing line of the
   * same indentation, dedents back to the rendering between two empty lines.
   */
  lemma IndentedNotBlank(p: string, lines: seq<string>)
    requires forall i | 0 <= i < |lines| :: !Blank(lines[i])
    ensures forall i | 0 <= i < |lines| :: !Blank(Indent(p, lines)[i])
  {
    var ind := Indent(p, lines);
    forall i | 0 <= i < |ind| ensures !Blank(ind[i]) {
      var k :| 0 <= k < |lines[i]| && !IsMarginChar(lines[i][k]);
      assert ind[i][|p| + k] == lines[i][k];
    }
  }

  /** Lines whose first one starts flush have no margin. */
  lemma FlushMarginEmpty(lines: seq<string>)
    requires lines != [] && !Blank(lines[0]) && Leading(lines[0]) == ""
    ensures Margin(lines) == Some("")
  {
  }

  lemma ClearedBlock(p: string, lines: seq<string>)
    requires Blank(p)
    requires forall i | 0 <= i < |lines| :: !Blank(lines[i])
    ensures ClearBlanks([""] + Indent(p, lines) + [p]) == [""] + Indent(p, lines) + [""]
  {
    var ind := Indent(p, lines);
    var text := [""] + ind + [p];
    IndentedNotBlank(p, lines);
    var cleared := ClearBlanks(text);
    forall i | 0 <= i < |cleared| ensures cleared[i] == ([""] + ind + [""])[i] {
      if 0 < i <= |ind| {
        assert text[i] == ind[i - 1];
      }
    }
  }

  lemma MarginOfBlock(p: string, lines: seq<string>)
    requires Blank(p) && lines != []
    requires forall i | 0 <= i < |lines| :: !Blank(lines[i])
    requires Leading(lines[0]) == ""
    ensures Margin([""] + Indent(p, lines) + [""]) == Some(p)
  {
    var ind := Indent(p, lines);
    IndentedNotBlank(p, lines);
    MarginSkipsTrailingBlank(ind, "");
    assert ([""] + ind + [""])[1..] == ind + [""];
    FlushMarginEmpty(lines);
    MarginOfIndented(p, lines);
    assert p + "" == p;
  }

  lemma RemoveMarginOfBlock(p: string, lines: seq<string>)
    ensures RemoveMargin(p, [""] + Indent(p, lines) + [""]) == [""] + lines + [""]
  {
    var block := [""] + Indent(p, lines) + [""];
    var r := RemoveMargin(p, block);
    forall i | 0 <= i < |r| ensures r[i] == ([""] + lines + [""])[i] {
      if 0 < i <= |lines| {
        assert block[i] == p + lines[i - 1];
        assert (p + lines[i - 1])[|p|..] == lines[i - 1];
      }
    }
  }

  /**
   * An expected layout written inside the test source, one line per line of
   * the rendering, after an opening newline and before a closing line of the
   * same indentation, dedents back to the rendering between two empty lines.
   */
  lemma DedentIndentedBlock(p: string, lines: seq<string>)
    requires Blank(p) && lines != []
    requires forall i | 0 <= i < |lines| :: !Blank(lines[i])
    requires Leading(lines[0]) == ""
    ensures DedentLines([""] + Indent(p, lines) + [p]) == [""] + lines + [""]
  {
    ClearedBlock(p, lines);
    MarginOfBlock(p, lines);
    RemoveMarginOfBlock(p, lines);
  }

  // ---------------------------------------------------------------------------
  // str.strip
  // ---------------------------------------------------------------------------

  /** The characters Python's `str.isspace` accepts, which `str.strip` removes. */
  predicate IsSpace(c: char)
  {
    c == ' ' || ('\t' <= c <= '\r') || ('\U{1c}' <= c <= '\U{1f}') || c == '\U{85}' || c == '\U{a0}' ||
    c == '\U{1680}' || ('\U{2000}' <= c <= '\U{200a}') || c == '\U{2028}' || c == '\U{2029}' ||
    c == '\U{202f}' || c == '\U{205f}' || c == '\U{3000}'
  }

  predicate AllSpace(s: string)
  {
    forall k | 0 <= k < |s| :: IsSpace(s[k])
  }

  function StripLeading(s: string): (r: string)
    ensures |r| <= |s|
    ensures r == s[|s| - |r|..] && AllSpace(s[..|s| - |r|])
    ensures r == [] || !IsSpace(r[0])
  {
    if s != [] && IsSpace(s[0]) then
      var r := StripLeading(s[1..]);
      StripLeadingStep(s, r);
      r
    else s
  }

  lemma StripLeadingStep(s: string, r: string)
    requires s != [] && IsSpace(s[0])
    requires |r| <= |s| - 1 && r == s[1..][|s| - 1 - |r|..] && AllSpace(s[1..][..|s| - 1 - |r|])
    ensures r == s[|s| - |r|..] && AllSpace(s[..|s| - |r|])
  {
    var n := |s| - |r|;
    forall k | 0 <= k < n ensures IsSpace(s[..n][k]) {
      if k > 0 {
        assert s[..n][k] == s[1..][..n - 1][k - 1];
      }
    }
  }

  function StripTrailing(s: string): (r: string)
    ensures |r| <= |s|
    ensures r == s[..|r|] && AllSpace(s[|r|..])
    ensures r == [] || !IsSpace(r[|r| - 1])
  {
    if s != [] && IsSpace(s[|s| - 1]) then
      var r := StripTrailing(s[..|s| - 1]);
      StripTrailingStep(s, r);
      r
    else s
  }

  lemma StripTrailingStep(s: string, r: string)
    requires s != [] && IsSpace(s[|s| - 1])
    requires |r| <= |s| - 1 && r == s[..|s| - 1][..|r|] && AllSpace(s[..|s| - 1][|r|..])
    ensures r == s[..|r|] && AllSpace(s[|r|..])
  {
    var t := s[..|s| - 1];
    forall j | 0 <= j < |s| - |r| ensures IsSpace(s[|r|..][j]) {
      if j < |s| - 1 - |r| {
        assert s[|r|..][j] == t[|r|..][j];
      }
    }
  }

  /** `str.strip()`: the text without surrounding whitespace. */
  function Strip(s: string): string
  {
    StripTrailing(StripLeading(s))
  }

  lemma {:induction false} StripLeadingSkips(w: string, y: string)
    requires AllSpace(w)
    ensures StripLeading(w + y) == StripLeading(y)
    decreases |w|
  {
    if w == [] {
      assert w + y == y;
    } else {
      assert (w + y)[0] == w[0] && (w + y)[1..] == w[1..] + y;
      StripLeadingSkips(w[1..], y);
    }
  }

  lemma {:induction false} StripTrailingSkips(y: string, w: string)
    requires AllSpace(w)
    ensures StripTrailing(y + w) == StripTrailing(y)
    decreases |w|
  {
    if w == [] {
      assert y + w == y;
    } else {
      assert (y + w)[|y + w| - 1] == w[|w| - 1];
      assert (y + w)[..|y + w| - 1] == y + w[..|w| - 1];
      StripTrailingSkips(y, w[..|w| - 1]);
    }
  }

  lemma {:induction false} StripLeadingKeepsTailFrom(x: string, w: string, k: nat)
    requires k < |x| && !IsSpace(x[k])
    ensures StripLeading(x + w) == StripLeading(x) + w
    decreases k
  {
    assert (x + w)[0] == x[0];
    if IsSpace(x[0]) {
      assert (x + w)[1..] == x[1..] + w;
      assert x[1..][k - 1] == x[k];
      StripLeadingKeepsTailFrom(x[1..], w, k - 1);
    }
  }

  lemma StripLeadingKeepsTail(x: string, w: string)
    requires !AllSpace(x)
    ensures StripLeading(x + w) == StripLeading(x) + w
  {
    var k :| 0 <= k < |x| && !IsSpace(x[k]);
    StripLeadingKeepsTailFrom(x, w, k);
  }

  lemma StripLeadingAllSpace(w: string)
    requires AllSpace(w)
    ensures StripLeading(w) == []
  {
    StripLeadingSkips(w, "");
    assert w + "" == w;
  }

  /** Whitespace around a text does not change what `strip` leaves of it. */
  lemma StripPadded(w1: string, x: string, w2: string)
    requires AllSpace(w1) && AllSpace(w2)
    ensures Strip(w1 + x + w2) == Strip(x)
  {
    assert w1 + x + w2 == w1 + (x + w2);
    StripLeadingSkips(w1, x + w2);
    StripPaddedRight(x, w2);
  }

  lemma StripPaddedRight(x: string, w2: string)
    requires AllSpace(w2)
    ensures StripTrailing(StripLeading(x + w2)) == StripTrailing(StripLeading(x))
  {
    if AllSpace(x) {
      assert AllSpace(x + w2) by {
        forall k | 0 <= k < |x + w2| ensures IsSpace((x + w2)[k]) {
          if k >= |x| {
            assert (x + w2)[k] == w2[k - |x|];
          }
        }
      }
      StripLeadingAllSpace(x + w2);
      StripLeadingAllSpace(x);
    } else {
      StripLeadingKeepsTail(x, w2);
      StripTrailingSkips(StripLeading(x), w2);
    }
  }

  // ---------------------------------------------------------------------------
  // assertDirLayoutEquals
  // ---------------------------------------------------------------------------

  /** `assertDirLayoutEquals`: the dedented, stripped expectation equals the stripped rendering. */
  predicate LayoutEquals(d: Entry, expected: string)
    requires d.Dir?
  {
    Strip(Dedent(expected)) == Strip(Join(FormatDir(d, "")))
  }

  /** A name the layout text can show: not empty, not starting with indentation, on one line. */
  predicate ShowableName(name: string)
  {
    name != [] && !IsMarginChar(name[0]) && NoNewline(name)
  }

  predicate Showable(e: Entry)
  {
    ShowableName(e.name) && (e.Dir? ==> forall c | c in e.children :: Showable(c))
  }

  lemma {:induction false} EntryLinesShowable(e: Entry, indent: string)
    requires Showable(e) && NoNewline(indent)
    ensures forall i | 0 <= i < |EntryLines(e, indent)| ::
              NoNewline(EntryLines(e, indent)[i]) && !Blank(EntryLines(e, indent)[i])
    decreases e, 2, 0
  {
    var head := indent + e.name + (if e.Dir? then "/" else "");
    assert head[|indent|] == e.name[0];
    assert EntryLines(e, indent)[0] == head;
    if e.Dir? {
      FormatDirShowable(e, indent + LevelIndent);
    }
  }

  lemma {:induction false} FormatSortedShowable(d: Entry, sorted: seq<Entry>, indent: string)
    requires d.Dir? && forall c | c in sorted :: c in d.children && Showable(c)
    requires NoNewline(indent)
    ensures forall i | 0 <= i < |FormatSorted(d, sorted, indent)| ::
              NoNewline(FormatSorted(d, sorted, indent)[i]) && !Blank(FormatSorted(d, sorted, indent)[i])
    decreases d, 0, |sorted|
  {
    if sorted != [] {
      ChildBelow(sorted[0], d);
      EntryLinesShowable(sorted[0], indent);
      FormatSortedShowable(d, sorted[1..], indent);
    }
  }

  /** Every rendered line of a showable tree is one line holding text. */
  lemma {:induction false} FormatDirShowable(d: Entry, indent: string)
    requires d.Dir? && Showable(d) && NoNewline(indent)
    ensures forall i | 0 <= i < |FormatDir(d, indent)| ::
              NoNewline(FormatDir(d, indent)[i]) && !Blank(FormatDir(d, indent)[i])
    decreases d, 1, 0
  {
    var sorted := SortByName(d.children);
    assert forall c | c in sorted :: c in multiset(d.children);
    FormatSortedShowable(d, sorted, indent);
  }

  /** The first rendered line of a showable non-empty directory starts flush with the indentation. */
  lemma FirstLineFlush(d: Entry)
    requires d.Dir? && Showable(d) && d.children != []
    ensures |FormatDir(d, "")| > 0 && Leading(FormatDir(d, "")[0]) == ""
  {
    FormatDirFirstLine(d, "");
    var sorted := SortByName(d.children);
    var c := sorted[0];
    assert c in multiset(d.children);
    assert c in d.children;
    assert ShowableName(c.name);
    var first := "" + c.name + (if c.Dir? then "/" else "");
    assert first[0] == c.name[0];
  }

  /** A block of lines between an opening newline and a closing line splits back into those lines. */
  lemma BlockText(p: string, lines: seq<string>)
    requires NoNewline(p) && lines != []
    requires forall i | 0 <= i < |lines| :: NoNewline(lines[i])
    ensures Split("\n" + Join(lines) + "\n" + p) == [""] + lines + [p]
  {
    var block := [""] + lines + [p];
    forall i | 0 <= i < |block| ensures NoNewline(block[i]) {
      if 0 < i <= |lines| { assert block[i] == lines[i - 1]; }
    }
    JoinBlock(p, lines);
    SplitJoin(block);
  }

  lemma JoinBlock(p: string, lines: seq<string>)
    requires lines != []
    ensures "\n" + Join(lines) + "\n" + p == Join([""] + lines + [p])
  {
    JoinAppend([""], lines);
    JoinAppend([""] + lines, [p]);
  }

  /** Dedenting lines written with a margin between an opening newline and a closing margin line. */
  lemma DedentOfExpectation(p: string, lines: seq<string>)
    requires Blank(p) && lines != []
    requires forall i | 0 <= i < |lines| :: NoNewline(lines[i]) && !Blank(lines[i])
    requires Leading(lines[0]) == ""
    ensures Dedent("\n" + Join(Indent(p, lines)) + "\n" + p) == "\n" + Join(lines) + "\n"
  {
    var shown := Indent(p, lines);
    IndentedNoNewline(p, lines);
    var text := "\n" + Join(shown) + "\n" + p;
    BlockText(p, shown);
    assert Split(text) == [""] + shown + [p];
    DedentIndentedBlock(p, lines);
    assert DedentLines(Split(text)) == [""] + lines + [""];
    JoinBlock("", lines);
    assert "\n" + Join(lines) + "\n" + "" == "\n" + Join(lines) + "\n";
  }

  lemma IndentedNoNewline(p: string, lines: seq<string>)
    requires NoNewline(p)
    requires forall i | 0 <= i < |lines| :: NoNewline(lines[i])
    ensures forall i | 0 <= i < |lines| :: NoNewline(Indent(p, lines)[i])
  {
    var shown := Indent(p, lines);
    forall i | 0 <= i < |shown| ensures NoNewline(shown[i]) {
      assert shown[i] == p + lines[i];
    }
  }

  /**
   * The way the tests write their expectations: the rendering of a non-empty
   * directory, indented by any margin, between an opening newline and a
   * closing line of that margin, matches the directory.
   */
  lemma IndentedExpectationMatches(d: Entry, p: string)
    requires d.Dir? && Showable(d) && d.children != []
    requires Blank(p)
    ensures LayoutEquals(d, "\n" + Join(FormatDir(d, p)) + "\n" + p)
  {
    var lines := FormatDir(d, "");
    FormatDirShift(d, p, "");
    assert p + "" == p;
    FormatDirShowable(d, "");
    FirstLineFlush(d);
    DedentOfExpectation(p, lines);
    StripPadded("\n", Join(lines), "\n");
  }

  // ---------------------------------------------------------------------------
  // Paths and the generator run
  // ---------------------------------------------------------------------------

  predicate IsAbs(path: string)
  {
    |path| > 0 && path[0] == '/'
  }

  /** POSIX `os.path.join(a, b)`. */
  function PathJoin(a: string, b: string): (r: string)
    ensures IsAbs(r) <==> IsAbs(a) || IsAbs(b)
    ensures IsAbs(b) ==> r == b
    ensures |b| <= |r| && r[|r| - |b|..] == b
  {
    if IsAbs(b) then b else if a == [] || a[|a| - 1] == '/' then a + b else a + "/" + b
  }

  /** Python truthiness of an optional string: present and not empty. */
  predicate Truthy(s: Option<string>)
  {
    s.Some? && s.value != ""
  }

  /** `mod_root` in `check_generator_output`. */
  function ResolveModRoot(modRoot: Option<string>, testDataDir: string): (r: string)
    ensures !Truthy(modRoot) ==> r == testDataDir
    ensures Truthy(modRoot) && IsAbs(modRoot.value) ==> r == modRoot.value
    ensures Truthy(modRoot) && !IsAbs(modRoot.value) ==> r == PathJoin(testDataDir, modRoot.value)
  {
    if !Truthy(modRoot) then testDataDir
    else if !IsAbs(modRoot.value) then PathJoin(testDataDir, modRoot.value)
    else modRoot.value
  }

  /** `mod_path` in `check_generator_output`: a given path is joined onto the root. */
  function ResolveModPath(modPath: Option<string>, modRoot: string): (r: Option<string>)
    ensures Truthy(modPath) ==> r == Some(PathJoin(modRoot, modPath.value))
    ensures !Truthy(modPath) ==> r == modPath
  {
    if Truthy(modPath) then Some(PathJoin(modRoot, modPath.value)) else modPath
  }

  /** With an absolute test-data directory the module root is absolute, and so is every module path resolved onto it. */
  lemma ResolvedPathsAbsolute(modRoot: Option<string>, modPath: Option<string>, testDataDir: string)
    requires IsAbs(testDataDir)
    ensures IsAbs(ResolveModRoot(modRoot, testDataDir))
    ensures Truthy(modPath) ==> IsAbs(ResolveModPath(modPath, ResolveModRoot(modRoot, testDataDir)).value)
  {
  }

  /** A relative module path lands below the module root; an absolute one ignores the root. */
  lemma ModPathUnderRoot(modPath: string, modRoot: string)
    requires modPath != "" && modRoot != ""
    ensures !IsAbs(modPath) && modRoot[|modRoot| - 1] != '/' ==>
              ResolveModPath(Some(modPath), modRoot) == Some(modRoot + "/" + modPath)
    ensures IsAbs(modPath) ==> ResolveModPath(Some(modPath), modRoot) == Some(modPath)
  {
  }

  /** A keyword argument of `check_generator_output`: left out, or passed (possibly as None). */
  datatype Keyword = Absent | Passed(value: Option<string>)

  const RequiredGenVersionFileName: string := "required_gen_version"

  /** `kwargs.setdefault('required_gen_version_file_path', ...)` when `custom_required_gen` is set. */
  function RequiredGenKeyword(customRequiredGen: bool, given: Keyword, testDataDir: string): (r: Keyword)
    ensures given.Passed? ==> r == given
    ensures !customRequiredGen ==> r == given
    ensures customRequiredGen && given.Absent? ==>
              r == Passed(Some(PathJoin(testDataDir, RequiredGenVersionFileName)))
  {
    if customRequiredGen && given.Absent? then Passed(Some(PathJoin(testDataDir, RequiredGenVersionFileName)))
    else given
  }

  /** The keyword's value as `run_generator` receives it: its default is None. */
  function KeywordValue(k: Keyword): (r: Option<string>)
    ensures k.Absent? ==> r.None?
    ensures k.Passed? ==> r == k.value
  {
    if k.Absent? then None else k.value
  }

  /** The variables `run_generator` sets in the generator's environment. */
  datatype EnvVar = TestModeFlag | GeneratorVersion | ContentIndependentHashesFlag | RequiredGenVersionFile

  /** The version a test run reports, which makes the generator always regenerate skeletons. */
  const TestGeneratorVersion: string := "1000.0"

  /**
   * `run_generator` up to the launch: the environment it builds step by step,
   * the sys.path entry and the module path it passes. `importedModulePath` is
   * what importing the module would report.
   */
  method RunGenerator(modPath: Option<string>, fakeHashes: bool, extraSyspathEntry: Option<string>,
                      genVersion: Option<string>, requiredGenVersionFilePath: Option<string>,
                      testDataDir: string, importedModulePath: Option<string>)
    returns (env: map<EnvVar, string>, syspathEntry: string, resolvedModPath: Option<string>)
    ensures TestModeFlag in env && env[TestModeFlag] == "True"
    ensures GeneratorVersion in env &&
            env[GeneratorVersion] == (if Truthy(genVersion) then genVersion.value else TestGeneratorVersion)
    ensures ContentIndependentHashesFlag in env <==> fakeHashes
    ensures fakeHashes ==> env[ContentIndependentHashesFlag] == "True"
    ensures RequiredGenVersionFile in env <==> Truthy(requiredGenVersionFilePath)
    ensures Truthy(requiredGenVersionFilePath) ==> env[RequiredGenVersionFile] == requiredGenVersionFilePath.value
    ensures env.Keys <= {TestModeFlag, GeneratorVersion, ContentIndependentHashesFlag, RequiredGenVersionFile}
    ensures syspathEntry == (if Truthy(extraSyspathEntry) then extraSyspathEntry.value else testDataDir)
    ensures resolvedModPath == (if Truthy(modPath) then modPath else importedModulePath)
  {
    syspathEntry := if Truthy(extraSyspathEntry) then extraSyspathEntry.value else testDataDir;
    resolvedModPath := if Truthy(modPath) then modPath else importedModulePath;
    env := map[TestModeFlag := "True",
               GeneratorVersion := if Truthy(genVersion) then genVersion.value else TestGeneratorVersion];
    if fakeHashes {
      env := env[ContentIndependentHashesFlag := "True"];
    }
    if Truthy(requiredGenVersionFilePath) {
      env := env[RequiredGenVersionFile := requiredGenVersionFilePath.value];
    }
  }

  /**
   * `check_generator_output`: resolves the module root and path, fills in the
   * default required-version file, and runs the generator with the root on sys.path.
   */
  method CheckGeneratorOutput(modPath: Option<string>, modRoot: Option<string>, customRequiredGen: bool,
                              fakeHashes: bool, genVersion: Option<string>, requiredGiven: Keyword,
                              testDataDir: string, importedModulePath: Option<string>)
    returns (env: map<EnvVar, string>, syspathEntry: string, resolvedModPath: Option<string>)
    ensures syspathEntry == ResolveModRoot(modRoot, testDataDir)
    ensures Truthy(modPath) ==> resolvedModPath == Some(PathJoin(syspathEntry, modPath.value))
    ensures !Truthy(modPath) ==> resolvedModPath == importedModulePath
    ensures customRequiredGen && requiredGiven.Absent? ==>
              RequiredGenVersionFile in env && env[RequiredGenVersionFile] == PathJoin(testDataDir, RequiredGenVersionFileName)
    ensures requiredGiven.Passed? ==>
              (RequiredGenVersionFile in env <==> Truthy(requiredGiven.value))
    ensures requiredGiven.Passed? && Truthy(requiredGiven.value) ==>
              env[RequiredGenVersionFile] == requiredGiven.value.value
    ensures !customRequiredGen && requiredGiven.Absent? ==> RequiredGenVersionFile !in env
    ensures TestModeFlag in env && env[TestModeFlag] == "True"
    ensures GeneratorVersion in env &&
            env[GeneratorVersion] == (if Truthy(genVersion) then genVersion.value else TestGeneratorVersion)
    ensures ContentIndependentHashesFlag in env <==> fakeHashes
    ensures fakeHashes ==> env[ContentIndependentHashesFlag] == "True"
    ensures env.Keys <= {TestModeFlag, GeneratorVersion, ContentIndependentHashesFlag, RequiredGenVersionFile}
  {
    var required := RequiredGenKeyword(customRequiredGen, requiredGiven, testDataDir);
    var root := ResolveModRoot(modRoot, testDataDir);
    var path := ResolveModPath(modPath, root);
    assert PathJoin(testDataDir, RequiredGenVersionFileName) != "";
    env, syspathEntry, resolvedModPath :=
      RunGenerator(path, fakeHashes, Some(root), genVersion, KeywordValue(required), testDataDir, importedModulePath);
  }
}
