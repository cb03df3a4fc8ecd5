/**
 * The self-contained bookkeeping of the Java highlighting visitor: the
 * memoised walk that finds the constructor an element sits in, the
 * "error reported while visiting this element" flag, the mapping from a
 * compiler error's highlight kind to an info type and the end-of-line rule,
 * the rewrite of tooltip colour classes into inline styles, the conflict
 * bookkeeping for single static imports, and the per-file cleanup of
 * `analyze`. The rule checks themselves are abstract builders.
 */
module HighlightVisitor {
  import opened Wrappers

  // ---- the PSI tree and the surrounding constructor ----

  /** PSI elements are numbered in document order, so a parent's number is below its children's. */
  type Element = nat

  /** The parent links (absent for the top), the file elements and the constructor methods. */
  datatype Tree = Tree(parent: map<Element, Element>, files: set<Element>, constructors: set<Element>)

  predicate WellFormed(t: Tree)
  {
    forall e | e in t.parent :: t.parent[e] < e
  }

  /** The ancestor-or-self walk from `e`: upwards until the top or a file, the file excluded. */
  function Chain(t: Tree, e: Element): (r: seq<Element>)
    requires WellFormed(t)
    ensures e !in t.files ==> |r| > 0 && r[0] == e
    ensures e in t.files ==> r == []
    ensures forall i | 0 <= i < |r| :: r[i] !in t.files
    decreases e
  {
    if e in t.files then []
    else if e in t.parent then [e] + Chain(t, t.parent[e])
    else [e]
  }

  /** Every element on the walk starts the rest of the walk. */
  lemma {:induction false} ChainSuffix(t: Tree, e: Element, i: nat)
    requires WellFormed(t)
    requires i < |Chain(t, e)|
    ensures Chain(t, Chain(t, e)[i]) == Chain(t, e)[i..]
    decreases e
  {
    if i > 0 {
      var p := t.parent[e];
      ChainSuffix(t, p, i - 1);
      assert Chain(t, e)[i] == Chain(t, p)[i - 1];
      assert Chain(t, e)[i..] == Chain(t, p)[i - 1..];
    }
  }

  /** One step up the walk from its `i`-th element. */
  lemma WalkStep(t: Tree, e: Element, i: nat)
    requires WellFormed(t)
    requires i < |Chain(t, e)|
    ensures var c := Chain(t, e);
            var x := c[i];
            if x in t.parent && t.parent[x] !in t.files
            then i + 1 < |c| && c[i + 1] == t.parent[x] && Chain(t, t.parent[x]) == c[i + 1..]
            else i + 1 == |c|
  {
    var c := Chain(t, e);
    ChainLinks(t, e, i);
    if i + 1 < |c| {
      ChainSuffix(t, e, i + 1);
    }
  }

  /**
   * What the first loop of `findSurroundingConstructor` leaves for the second:
   * with a consistent cache its answer is the surrounding constructor, the
   * stopping element is the first walked element it can meet, and caching the
   * answer for the walked prefix keeps the cache consistent.
   */
  lemma WalkFacts(t: Tree, cache: map<Element, Option<Element>>, entry: Element,
                  result: Option<Element>, element: Option<Element>)
    requires WellFormed(t)
    requires forall k | k in cache :: cache[k] == SurroundingConstructor(t, k)
    requires var chain := Chain(t, entry);
             var stop := StopIndex(t, cache, chain);
             && result == AnswerAtStop(t, cache, chain)
             && (stop < |chain| ==> element == Some(chain[stop]))
             && (stop == |chain| ==> element.None? || element.value in t.files)
    ensures var chain := Chain(t, entry);
            var n := CachedLength(StopIndex(t, cache, chain), chain);
            && result == SurroundingConstructor(t, entry)
            && n <= |chain|
            && (forall j | 0 <= j && j + 1 < n :: element != Some(chain[j]))
            && (n < |chain| ==> n > 0 && element == Some(chain[n - 1]))
            && var cache' := CacheAll(cache, chain[..n], result);
               forall k | k in cache' :: cache'[k] == SurroundingConstructor(t, k)
  {
    WalkedPrefixAgrees(t, cache, entry);
    var chain := Chain(t, entry);
    WalkedPrefixCached(t, cache, chain, CachedLength(StopIndex(t, cache, chain), chain), result);
    StopIsFirstMet(t, cache, entry, element);
  }

  lemma WalkedPrefixCached(t: Tree, cache: map<Element, Option<Element>>, chain: seq<Element>, n: nat, result: Option<Element>)
    requires WellFormed(t) && n <= |chain|
    requires forall k | k in cache :: cache[k] == SurroundingConstructor(t, k)
    requires forall m | 0 <= m < n :: SurroundingConstructor(t, chain[m]) == result
    ensures var cache' := CacheAll(cache, chain[..n], result);
            forall k | k in cache' :: cache'[k] == SurroundingConstructor(t, k)
  {
    forall m | 0 <= m < |chain[..n]| ensures SurroundingConstructor(t, chain[..n][m]) == result {
      assert chain[..n][m] == chain[m];
    }
    ExtendedCacheConsistent(t, cache, chain[..n], result);
  }

  lemma StopIsFirstMet(t: Tree, cache: map<Element, Option<Element>>, entry: Element, element: Option<Element>)
    requires WellFormed(t)
    requires var chain := Chain(t, entry);
             var stop := StopIndex(t, cache, chain);
             && (stop < |chain| ==> element == Some(chain[stop]))
             && (stop == |chain| ==> element.None? || element.value in t.files)
    ensures var chain := Chain(t, entry);
            var n := CachedLength(StopIndex(t, cache, chain), chain);
            && n <= |chain|
            && (forall j | 0 <= j && j + 1 < n :: element != Some(chain[j]))
            && (n < |chain| ==> n > 0 && element == Some(chain[n - 1]))
  {
    var chain := Chain(t, entry);
    var n := CachedLength(StopIndex(t, cache, chain), chain);
    forall j | 0 <= j && j + 1 < n ensures element != Some(chain[j]) {
      assert chain[j] !in cache && chain[j] !in t.constructors;
    }
  }

  /** Consecutive elements of the walk are parent links; the walk ends at the top or below a file. */
  lemma ChainLinks(t: Tree, e: Element, j: nat)
    requires WellFormed(t)
    requires j < |Chain(t, e)|
    ensures var c := Chain(t, e);
            if j + 1 < |c| then c[j] in t.parent && t.parent[c[j]] == c[j + 1]
            else c[j] !in t.parent || t.parent[c[j]] in t.files
  {
    var c := Chain(t, e);
    ChainSuffix(t, e, j);
    assert Chain(t, c[j]) == c[j..];
    if c[j] in t.parent {
      assert Chain(t, c[j]) == [c[j]] + Chain(t, t.parent[c[j]]);
      if j + 1 < |c| {
        assert c[j..][1] == c[j + 1];
      } else {
        assert Chain(t, t.parent[c[j]]) == [];
      }
    }
  }

  /**
   * One step of the caching walk: the element at `j` ends the walk exactly at
   * `n`, and the parent link leads to the next element of the walk, or off it.
   */
  lemma CacheWalkStep(t: Tree, entry: Element, element: Option<Element>, n: nat, j: nat)
    requires WellFormed(t)
    requires var chain := Chain(t, entry);
             && n <= |chain| && j < n
             && (forall i | 0 <= i && i + 1 < n :: element != Some(chain[i]))
             && (n < |chain| ==> n > 0 && element == Some(chain[n - 1]))
    ensures var chain := Chain(t, entry);
            var x := chain[j];
            var next := if x in t.parent then Some(t.parent[x]) else None;
            && (element == Some(x) ==> j + 1 == n)
            && (element != Some(x) ==> j + 1 < n || j + 1 == |chain|)
            && (j + 1 < |chain| ==> next == Some(chain[j + 1]))
            && (j + 1 == |chain| ==> next.None? || next.value in t.files)
  {
    ChainLinks(t, entry, j);
  }

  /** The first constructor on a walk. */
  function FirstConstructor(t: Tree, chain: seq<Element>): (r: Option<Element>)
    ensures r.Some? ==> r.value in chain && r.value in t.constructors
    ensures r.None? ==> forall x | x in chain :: x !in t.constructors
    ensures chain != [] && chain[0] in t.constructors ==> r == Some(chain[0])
  {
    if chain == [] then None
    else if chain[0] in t.constructors then Some(chain[0])
    else FirstConstructor(t, chain[1..])
  }

  /** Elements that are not constructors can be skipped. */
  lemma {:induction false} FirstConstructorSkip(t: Tree, chain: seq<Element>, i: nat)
    requires i <= |chain|
    requires forall j | 0 <= j < i :: chain[j] !in t.constructors
    ensures FirstConstructor(t, chain) == FirstConstructor(t, chain[i..])
  {
    if i > 0 {
      FirstConstructorSkip(t, chain[1..], i - 1);
      assert chain[1..][i - 1..] == chain[i..];
    }
  }

  /** The constructor `e` is inside: the nearest constructor among `e` and its ancestors below the file. */
  function SurroundingConstructor(t: Tree, e: Element): Option<Element>
    requires WellFormed(t)
  {
    FirstConstructor(t, Chain(t, e))
  }

  /** Where the first walk stops: at the first element already cached or that is a constructor. */
  function StopIndex(t: Tree, cache: map<Element, Option<Element>>, chain: seq<Element>): (r: nat)
    ensures r <= |chain|
    ensures forall j | 0 <= j < r :: chain[j] !in cache && chain[j] !in t.constructors
    ensures r < |chain| ==> chain[r] in cache || chain[r] in t.constructors
  {
    if chain == [] then 0
    else if chain[0] in cache || chain[0] in t.constructors then 0
    else 1 + StopIndex(t, cache, chain[1..])
  }

  /** How many elements of the walk the second loop caches: up to and including the stopping one. */
  function CachedLength(stop: nat, chain: seq<Element>): nat
  {
    if stop < |chain| then stop + 1 else |chain|
  }

  /** The answer the first walk reads off at its stopping element (none when it runs off the top). */
  function AnswerAtStop(t: Tree, cache: map<Element, Option<Element>>, chain: seq<Element>): Option<Element>
  {
    var stop := StopIndex(t, cache, chain);
    if stop == |chain| then None
    else if chain[stop] in cache then cache[chain[stop]]
    else Some(chain[stop])
  }

  /** Skipping from `m` to `stop` passes no constructor. */
  lemma FirstConstructorFrom(t: Tree, chain: seq<Element>, m: nat, stop: nat)
    requires m <= stop <= |chain|
    requires forall j | 0 <= j < stop :: chain[j] !in t.constructors
    ensures FirstConstructor(t, chain[m..]) == FirstConstructor(t, chain[stop..])
  {
    var rest := chain[m..];
    forall j | 0 <= j < stop - m ensures rest[j] !in t.constructors {
      assert rest[j] == chain[m + j];
    }
    FirstConstructorSkip(t, rest, stop - m);
    assert rest[stop - m..] == chain[stop..];
  }

  /** The answer read at the stop is the first constructor from the stop on, given a correct entry there. */
  lemma AnswerFromStop(t: Tree, cache: map<Element, Option<Element>>, chain: seq<Element>, stop: nat)
    requires WellFormed(t)
    requires stop == StopIndex(t, cache, chain)
    requires stop < |chain| && chain[stop] in cache ==> cache[chain[stop]] == FirstConstructor(t, chain[stop..])
    ensures AnswerAtStop(t, cache, chain) == FirstConstructor(t, chain[stop..])
  {
    if stop == |chain| {
      assert chain[stop..] == [];
    } else if chain[stop] !in cache {
      assert chain[stop..][0] == chain[stop];
    }
  }

  /** One element walked up to the stop has the answer read there as its surrounding constructor. */
  lemma {:induction false} WalkedElementAgrees(t: Tree, cache: map<Element, Option<Element>>, entry: Element, m: nat)
    requires WellFormed(t)
    requires forall k | k in cache :: cache[k] == SurroundingConstructor(t, k)
    requires m < CachedLength(StopIndex(t, cache, Chain(t, entry)), Chain(t, entry))
    ensures SurroundingConstructor(t, Chain(t, entry)[m]) == AnswerAtStop(t, cache, Chain(t, entry))
  {
    var chain := Chain(t, entry);
    var stop := StopIndex(t, cache, chain);
    ChainSuffix(t, entry, m);
    FirstConstructorFrom(t, chain, m, stop);
    if stop < |chain| && chain[stop] in cache {
      ChainSuffix(t, entry, stop);
      assert cache[chain[stop]] == SurroundingConstructor(t, chain[stop]);
    }
    AnswerFromStop(t, cache, chain, stop);
  }

  /**
   * With a consistent cache, the answer read at the stopping element is the
   * surrounding constructor of the entry and of every element walked up to it.
   */
  lemma {:induction false} WalkedPrefixAgrees(t: Tree, cache: map<Element, Option<Element>>, entry: Element)
    requires WellFormed(t)
    requires forall k | k in cache :: cache[k] == SurroundingConstructor(t, k)
    ensures var chain := Chain(t, entry);
            forall m | 0 <= m < CachedLength(StopIndex(t, cache, chain), chain) ::
              SurroundingConstructor(t, chain[m]) == AnswerAtStop(t, cache, chain)
    ensures AnswerAtStop(t, cache, Chain(t, entry)) == SurroundingConstructor(t, entry)
  {
    var chain := Chain(t, entry);
    forall m | 0 <= m < CachedLength(StopIndex(t, cache, chain), chain)
      ensures SurroundingConstructor(t, chain[m]) == AnswerAtStop(t, cache, chain)
    {
      WalkedElementAgrees(t, cache, entry, m);
    }
    if chain != [] {
      WalkedElementAgrees(t, cache, entry, 0);
    }
  }

  /** Giving consistent answers to more elements keeps the cache consistent. */
  lemma {:induction false} ExtendedCacheConsistent(t: Tree, cache: map<Element, Option<Element>>, walked: seq<Element>, result: Option<Element>)
    requires WellFormed(t)
    requires forall k | k in cache :: cache[k] == SurroundingConstructor(t, k)
    requires forall m | 0 <= m < |walked| :: SurroundingConstructor(t, walked[m]) == result
    ensures var cache' := CacheAll(cache, walked, result);
            forall k | k in cache' :: cache'[k] == SurroundingConstructor(t, k)
  {
    if walked != [] {
      var init := walked[..|walked| - 1];
      assert forall m | 0 <= m < |init| :: init[m] == walked[m];
      ExtendedCacheConsistent(t, cache, init, result);
    }
  }

  /** The cache after putting `result` for each walked element in turn. */
  function CacheAll(cache: map<Element, Option<Element>>, walked: seq<Element>, result: Option<Element>): map<Element, Option<Element>>
  {
    if walked == [] then cache
    else CacheAll(cache, walked[..|walked| - 1], result)[walked[|walked| - 1] := result]
  }

  lemma CacheAllStep(cache: map<Element, Option<Element>>, walked: seq<Element>, j: nat, result: Option<Element>)
    requires j < |walked|
    ensures CacheAll(cache, walked[..j + 1], result) == CacheAll(cache, walked[..j], result)[walked[j] := result]
  {
    assert walked[..j + 1][..j] == walked[..j];
  }

  // ---- the error flag ----

  /** ERROR's place in the severity order. */
  const ErrorSeverity: int := 400

  datatype HighlightInfo = HighlightInfo(severity: int)

  /** A builder produced by a check; `create` may still give no info. */
  datatype Builder = Builder(created: Option<HighlightInfo>)

  predicate MakesError(b: Option<Builder>)
  {
    b.Some? && b.value.created.Some? && b.value.created.value.severity >= ErrorSeverity
  }

  /** What reaches the holder from a run of builders: the created info (possibly none) of each present builder. */
  function HolderCalls(builders: seq<Option<Builder>>): (r: seq<Option<HighlightInfo>>)
    ensures |r| <= |builders|
  {
    if builders == [] then []
    else (if builders[0].Some? then [builders[0].value.created] else []) + HolderCalls(builders[1..])
  }

  /**
   * How many of a series of guarded checks run: none once an error is
   * flagged, otherwise every check up to and including the first error.
   */
  function GuardedRuns(hasError: bool, checks: seq<Option<Builder>>): (r: nat)
    ensures r <= |checks|
    ensures hasError ==> r == 0
    ensures !hasError && r < |checks| ==> r > 0 && MakesError(checks[r - 1])
    ensures !hasError ==> forall j | 0 <= j < r - 1 :: !MakesError(checks[j])
    ensures !hasError && r == |checks| ==> forall j | 0 <= j < |checks| - 1 :: !MakesError(checks[j])
    decreases |checks|
  {
    if hasError || checks == [] then 0
    else 1 + GuardedRuns(MakesError(checks[0]), checks[1..])
  }

  /** Some check of the series gives an info of at least error severity. */
  predicate AnyError(checks: seq<Option<Builder>>)
  {
    exists j | 0 <= j < |checks| :: MakesError(checks[j])
  }

  lemma AnyErrorSnoc(checks: seq<Option<Builder>>, c: Option<Builder>)
    ensures AnyError(checks + [c]) == (AnyError(checks) || MakesError(c))
  {
    if AnyError(checks) {
      var j :| 0 <= j < |checks| && MakesError(checks[j]);
      assert (checks + [c])[j] == checks[j];
    }
    if MakesError(c) {
      assert (checks + [c])[|checks|] == c;
    }
  }

  /** One more check runs exactly when no error was flagged before it. */
  lemma {:induction false} GuardedRunsSnoc(hasError: bool, checks: seq<Option<Builder>>, c: Option<Builder>)
    ensures GuardedRuns(hasError, checks + [c]) ==
              if hasError || exists j | 0 <= j < |checks| :: MakesError(checks[j])
              then GuardedRuns(hasError, checks) else |checks| + 1
    decreases |checks|
  {
    if !hasError && checks != [] {
      assert (checks + [c])[1..] == checks[1..] + [c];
      GuardedRunsSnoc(MakesError(checks[0]), checks[1..], c);
      if !MakesError(checks[0]) {
        assert (exists j | 0 <= j < |checks| :: MakesError(checks[j])) ==
               (exists j | 0 <= j < |checks[1..]| :: MakesError(checks[1..][j])) by {
          forall j | 0 < j < |checks| ensures checks[j] == checks[1..][j - 1] { }
        }
      }
    }
  }

  /** One loop step of the guarded checks: the check at `i` runs and reaches the holder exactly when no error was flagged yet. */
  lemma GuardedStep(error0: bool, checks: seq<Option<Builder>>, i: nat)
    requires i < |checks|
    ensures AnyError(checks[..i + 1]) == (AnyError(checks[..i]) || MakesError(checks[i]))
    ensures error0 || AnyError(checks[..i]) ==>
              GuardedRuns(error0, checks[..i + 1]) == GuardedRuns(error0, checks[..i])
    ensures !(error0 || AnyError(checks[..i])) ==>
              HolderCalls(checks[..GuardedRuns(error0, checks[..i + 1])]) ==
              HolderCalls(checks[..GuardedRuns(error0, checks[..i])]) +
              (if checks[i].Some? then [checks[i].value.created] else [])
  {
    var pre := checks[..i];
    assert checks[..i + 1] == pre + [checks[i]];
    GuardedRunsSnoc(error0, pre, checks[i]);
    AnyErrorSnoc(pre, checks[i]);
    if !(error0 || AnyError(pre)) {
      HolderCallsSnoc(pre, checks[i]);
    }
  }

  lemma {:induction false} HolderCallsSnoc(builders: seq<Option<Builder>>, b: Option<Builder>)
    ensures HolderCalls(builders + [b]) == HolderCalls(builders) + (if b.Some? then [b.value.created] else [])
  {
    if builders != [] {
      assert (builders + [b])[1..] == builders[1..] + [b];
      HolderCallsSnoc(builders[1..], b);
    }
  }

  // ---- reportError ----

  datatype JavaErrorHighlightType = Error | FileLevelError | UnhandledException | WrongRef
  datatype HighlightInfoType = ErrorType | UnhandledExceptionType | WrongRefType

  /** The info type `reportError` creates. */
  function InfoTypeFor(k: JavaErrorHighlightType): HighlightInfoType
  {
    match k
    case Error => ErrorType
    case FileLevelError => ErrorType
    case UnhandledException => UnhandledExceptionType
    case WrongRef => WrongRefType
  }

  /** Whether `reportError` asks for a file-level annotation. */
  predicate IsFileLevel(k: JavaErrorHighlightType)
  {
    k == FileLevelError
  }

  /**
   * The two plain errors share the ERROR type and are told apart by the
   * file-level annotation alone; together the two lose nothing.
   */
  lemma InfoTypeAndFileLevelDetermineKind(k: JavaErrorHighlightType, l: JavaErrorHighlightType)
    ensures InfoTypeFor(k) == ErrorType <==> k == Error || k == FileLevelError
    ensures InfoTypeFor(k) == InfoTypeFor(l) && IsFileLevel(k) == IsFileLevel(l) ==> k == l
  {
  }

  datatype TextRange = TextRange(startOffset: nat, length: nat)

  /**
   * The end-of-line mark: an empty range whose absolute offset is at or past
   * the end of the document, or on a line break.
   */
  function IsEndOfLine(range: Option<TextRange>, anchorStart: nat, document: string): (r: bool)
    ensures r <==> range.Some? && range.value.length == 0 &&
                   (range.value.startOffset + anchorStart >= |document| ||
                    document[range.value.startOffset + anchorStart] == '\n')
  {
    if range.None? || range.value.length != 0 then false
    else
      var offset := range.value.startOffset + anchorStart;
      offset >= |document| || document[offset] == '\n'
  }

  // ---- postProcessClasses ----

  const ColorClassPrefix: string := "class=\"--java-display-"

  /** `\w`: an ASCII letter, digit or underscore. */
  predicate IsWordChar(c: char)
  {
    ('a' <= c <= 'z') || ('A' <= c <= 'Z') || ('0' <= c <= '9') || c == '_'
  }

  /** The length of the longest run of word characters at the start of `s`. */
  function WordRun(s: string): (r: nat)
    ensures r <= |s|
    ensures forall i | 0 <= i < r :: IsWordChar(s[i])
    ensures r < |s| ==> !IsWordChar(s[r])
  {
    if s != [] && IsWordChar(s[0]) then 1 + WordRun(s[1..]) else 0
  }

  /** A match of the colour-class pattern at the start of `s`: its length and the class name. */
  datatype ClassMatch = ClassMatch(length: nat, name: string)

  function MatchAt(s: string): (r: Option<ClassMatch>)
    ensures r.Some? ==> 0 < r.value.length <= |s|
  {
    if ColorClassPrefix <= s then
      var rest := s[|ColorClassPrefix|..];
      var run := WordRun(rest);
      if run > 0 && run < |rest| && rest[run] == '"' then
        Some(ClassMatch(|ColorClassPrefix| + run + 1, rest[..run]))
      else None
    else None
  }

  /** A match is the prefix, a non-empty run of word characters and a closing quote. */
  lemma MatchShape(s: string)
    requires MatchAt(s).Some?
    ensures var m := MatchAt(s).value;
            && s[..m.length] == ColorClassPrefix + m.name + "\""
            && |m.name| > 0 && forall i | 0 <= i < |m.name| :: IsWordChar(m.name[i])
  {
    var rest := s[|ColorClassPrefix|..];
    var run := WordRun(rest);
    assert s[..|ColorClassPrefix| + run + 1] == ColorClassPrefix + rest[..run] + "\"";
  }

  /** The tooltip colours, keyed by class name. */
  function TooltipColors(information: string, grayed: string, error: string): map<string, string>
  {
    map["information" := information, "grayed" := grayed, "error" := error]
  }

  function StyleFor(color: string): string
  {
    "style=\"color:" + color + ";\""
  }

  /** What a match becomes: an inline style for a known class, the matched text itself otherwise. */
  function Replacement(m: ClassMatch, colors: map<string, string>): string
  {
    if m.name in colors then StyleFor(colors[m.name]) else ColorClassPrefix + m.name + "\""
  }

  /** The rewrite `postProcessClasses` performs, matching from left to right. */
  function Rewrite(s: string, colors: map<string, string>): string
    decreases |s|
  {
    if s == [] then []
    else
      var m := MatchAt(s);
      if m.Some? then Replacement(m.value, colors) + Rewrite(s[m.value.length..], colors)
      else [s[0]] + Rewrite(s[1..], colors)
  }

  /** A known class at the front becomes its style; the rest is rewritten on its own. */
  lemma KnownClassBecomesStyle(name: string, rest: string, colors: map<string, string>)
    requires name in colors && |name| > 0
    requires forall i | 0 <= i < |name| :: IsWordChar(name[i])
    ensures Rewrite(ColorClassPrefix + name + "\"" + rest, colors) == StyleFor(colors[name]) + Rewrite(rest, colors)
  {
    var after := name + ("\"" + rest);
    var s := ColorClassPrefix + after;
    assert s == ColorClassPrefix + name + "\"" + rest;
    assert s[..|ColorClassPrefix|] == ColorClassPrefix;
    assert s[|ColorClassPrefix|..] == after;
    WordRunOf(name, "\"" + rest);
    assert after[|name|] == '"' && after[..|name|] == name;
    assert MatchAt(s) == Some(ClassMatch(|ColorClassPrefix| + |name| + 1, name));
    assert s[|ColorClassPrefix| + |name| + 1..] == rest;
  }

  lemma {:induction false} WordRunOf(word: string, rest: string)
    requires forall i | 0 <= i < |word| :: IsWordChar(word[i])
    requires rest != [] && !IsWordChar(rest[0])
    ensures WordRun(word + rest) == |word|
  {
    if word != [] {
      assert (word + rest)[1..] == word[1..] + rest;
      WordRunOf(word[1..], rest);
    }
  }

  /** No match of a known colour class starts anywhere in `s`. */
  predicate NoKnownClass(s: string, colors: map<string, string>)
  {
    forall p | 0 <= p < |s| :: MatchAt(s[p..]).None? || MatchAt(s[p..]).value.name !in colors
  }

  lemma NoKnownClassSuffix(s: string, colors: map<string, string>, k: nat)
    requires NoKnownClass(s, colors) && k <= |s|
    ensures NoKnownClass(s[k..], colors)
  {
    forall p | 0 <= p < |s[k..]|
      ensures MatchAt(s[k..][p..]).None? || MatchAt(s[k..][p..]).value.name !in colors
    {
      assert s[k..][p..] == s[k + p..];
    }
  }

  /** The first step of the rewrite on text with no known class copies the `k` characters it consumes. */
  lemma RewriteFirstStep(s: string, colors: map<string, string>) returns (k: nat)
    requires s != [] && NoKnownClass(s, colors)
    ensures 0 < k <= |s| && Rewrite(s, colors) == s[..k] + Rewrite(s[k..], colors)
    ensures NoKnownClass(s[k..], colors)
  {
    assert s[0..] == s;
    k := CopyStep(s, colors);
    NoKnownClassSuffix(s, colors, k);
  }

  /** Text without any class of a known colour comes out exactly as it went in. */
  lemma {:induction false} RewriteKeepsUnknownText(s: string, colors: map<string, string>)
    requires NoKnownClass(s, colors)
    ensures Rewrite(s, colors) == s
    decreases |s|
  {
    if s != [] {
      var k := RewriteFirstStep(s, colors);
      RewriteKeepsUnknownText(s[k..], colors);
      SplitJoin(s, k, Rewrite(s, colors), Rewrite(s[k..], colors));
    }
  }

  lemma SplitJoin(s: string, k: nat, whole: string, fromK: string)
    requires k <= |s| && whole == s[..k] + fromK && fromK == s[k..]
    ensures whole == s
  {
    assert s == s[..k] + s[k..];
  }

  // ---- single static imports ----

  type RefId = nat

  /** What a static import reference resolves to. */
  datatype Resolved = ClassResult(cls: nat) | FieldResult(field: nat) | OtherResult(element: nat)

  datatype ImportMessage =
    | CannotResolveSymbol
    | PendingReference
    | SingleImportClassConflict
    | ClassAmbiguousInSingleStaticImport
    | ClassAlreadyDefinedInSingleStaticImport
    | FieldAmbiguousInSingleStaticImport
    | FieldAlreadyDefinedInSingleStaticImport

  /**
   * The two maps from an imported name to its importing reference and
   * element; a class entry may carry no reference (entries written by the
   * plain single-import check).
   */
  datatype ImportMaps = ImportMaps(classes: map<string, (Option<RefId>, nat)>, fields: map<string, (RefId, nat)>)

  /**
   * One resolve result: a class or a field conflicts exactly when the name
   * already maps to another element of its kind; the message depends on the
   * prior importer; the entry is overwritten with this reference either way.
   */
  function ImportStep(m: ImportMaps, ref: RefId, name: string, r: Resolved): (res: (ImportMaps, Option<ImportMessage>))
    ensures r.ClassResult? ==> res.0 == m.(classes := m.classes[name := (Some(ref), r.cls)])
    ensures r.FieldResult? ==> res.0 == m.(fields := m.fields[name := (ref, r.field)])
    ensures r.OtherResult? ==> res == (m, None)
    ensures res.1.Some? <==>
              (r.ClassResult? && name in m.classes && m.classes[name].1 != r.cls) ||
              (r.FieldResult? && name in m.fields && m.fields[name].1 != r.field)
    ensures res.1 == Some(SingleImportClassConflict) <==>
              r.ClassResult? && name in m.classes && m.classes[name].1 != r.cls && m.classes[name].0.None?
    ensures res.1 == Some(ClassAmbiguousInSingleStaticImport) <==>
              r.ClassResult? && name in m.classes && m.classes[name].1 != r.cls && m.classes[name].0 == Some(ref)
    ensures res.1 == Some(ClassAlreadyDefinedInSingleStaticImport) <==>
              r.ClassResult? && name in m.classes && m.classes[name].1 != r.cls &&
              m.classes[name].0.Some? && m.classes[name].0 != Some(ref)
    ensures res.1 == Some(FieldAmbiguousInSingleStaticImport) <==>
              r.FieldResult? && name in m.fields && m.fields[name].1 != r.field && m.fields[name].0 == ref
    ensures res.1 == Some(FieldAlreadyDefinedInSingleStaticImport) <==>
              r.FieldResult? && name in m.fields && m.fields[name].1 != r.field && m.fields[name].0 != ref
  {
    match r
    case ClassResult(cls) =>
      var message :=
        if name in m.classes && m.classes[name].1 != cls then
          var importer := m.classes[name].0;
          Some(if importer.None? then SingleImportClassConflict
               else if importer.value == ref then ClassAmbiguousInSingleStaticImport
               else ClassAlreadyDefinedInSingleStaticImport)
        else None;
      (m.(classes := m.classes[name := (Some(ref), cls)]), message)
    case FieldResult(field) =>
      var message :=
        if name in m.fields && m.fields[name].1 != field then
          Some(if m.fields[name].0 == ref then FieldAmbiguousInSingleStaticImport
               else FieldAlreadyDefinedInSingleStaticImport)
        else None;
      (m.(fields := m.fields[name := (ref, field)]), message)
    case OtherResult(_) => (m, None)
  }

  function MessageSeq(message: Option<ImportMessage>): seq<ImportMessage>
  {
    if message.Some? then [message.value] else []
  }

  /** All resolve results of one reference, in order: the maps after them and the messages reported. */
  function ImportAll(m: ImportMaps, ref: RefId, name: string, results: seq<Resolved>): (res: (ImportMaps, seq<ImportMessage>))
    ensures |res.1| <= |results|
    decreases |results|
  {
    if results == [] then (m, [])
    else
      var (m', message) := ImportStep(m, ref, name, results[0]);
      var (m'', messages) := ImportAll(m', ref, name, results[1..]);
      (m'', MessageSeq(message) + messages)
  }

  /** Processing a prefix and then one more result is processing the longer prefix. */
  lemma {:induction false} ImportAllSnoc(m: ImportMaps, ref: RefId, name: string, results: seq<Resolved>, r: Resolved)
    ensures var before := ImportAll(m, ref, name, results);
            var last := ImportStep(before.0, ref, name, r);
            ImportAll(m, ref, name, results + [r]) == (last.0, before.1 + MessageSeq(last.1))
    decreases |results|
  {
    if results == [] {
      assert results + [r] == [r] && [r][1..] == [];
      var last := ImportStep(m, ref, name, r);
      assert ImportAll(m, ref, name, [r]) == (last.0, MessageSeq(last.1) + []);
      assert MessageSeq(last.1) + [] == [] + MessageSeq(last.1);
    } else {
      assert (results + [r])[1..] == results[1..] + [r];
      assert (results + [r])[0] == results[0];
      var step := ImportStep(m, ref, name, results[0]);
      var head := MessageSeq(step.1);
      ImportAllSnoc(step.0, ref, name, results[1..], r);
      var tailOld := ImportAll(step.0, ref, name, results[1..]);
      var tailNew := ImportAll(step.0, ref, name, results[1..] + [r]);
      var last := ImportStep(tailOld.0, ref, name, r);
      assert tailNew == (last.0, tailOld.1 + MessageSeq(last.1));
      assert ImportAll(m, ref, name, results) == (tailOld.0, head + tailOld.1);
      assert ImportAll(m, ref, name, results + [r]) == (tailNew.0, head + tailNew.1);
      assert head + (tailOld.1 + MessageSeq(last.1)) == (head + tailOld.1) + MessageSeq(last.1);
    }
  }

  /** The last class among the results wins the class entry, with this reference as importer. */
  lemma {:induction false} LastImportWins(m: ImportMaps, ref: RefId, name: string, results: seq<Resolved>, i: nat)
    requires i < |results| && results[i].ClassResult?
    requires forall j | i < j < |results| :: !results[j].ClassResult?
    ensures var res := ImportAll(m, ref, name, results).0;
            name in res.classes && res.classes[name] == (Some(ref), results[i].cls)
    decreases |results|
  {
    var (m', _) := ImportStep(m, ref, name, results[0]);
    if i == 0 {
      ClassesUntouched(m', ref, name, results[1..]);
    } else {
      LastImportWins(m', ref, name, results[1..], i - 1);
    }
  }

  lemma {:induction false} ClassesUntouched(m: ImportMaps, ref: RefId, name: string, results: seq<Resolved>)
    requires forall j | 0 <= j < |results| :: !results[j].ClassResult?
    ensures ImportAll(m, ref, name, results).0.classes == m.classes
    decreases |results|
  {
    if results != [] {
      var (m', _) := ImportStep(m, ref, name, results[0]);
      ClassesUntouched(m', ref, name, results[1..]);
    }
  }

  /** Entries for other names are never touched. */
  lemma {:induction false} OtherNamesUntouched(m: ImportMaps, ref: RefId, name: string, results: seq<Resolved>, other: string)
    requires other != name
    ensures var res := ImportAll(m, ref, name, results).0;
            (other in res.classes <==> other in m.classes) && (other in m.classes ==> res.classes[other] == m.classes[other]) &&
            (other in res.fields <==> other in m.fields) && (other in m.fields ==> res.fields[other] == m.fields[other])
    decreases |results|
  {
    if results != [] {
      var (m', _) := ImportStep(m, ref, name, results[0]);
      OtherNamesUntouched(m', ref, name, results[1..], other);
    }
  }

  // ---- the visitor ----

  type FileId = nat
  type HolderId = nat

  /** What `analyze` reports: the highlighting pass threw, or it returned true. */
  datatype AnalyzeOutcome = Threw | Returned(value: bool)

  /** One static import reference met during a highlighting pass. */
  datatype StaticImport = StaticImport(ref: RefId, name: string, results: seq<Resolved>, incompleteModel: bool)

  class HighlightVisitorState {
    var tree: Tree
    /** `myInsideConstructorOfClassCache`: an absent key is unknown; a `None` value is known to have no constructor. */
    var constructorCache: map<Element, Option<Element>>
    var hasError: bool
    /** Every info handed to the holder, in order. */
    var holderCalls: seq<Option<HighlightInfo>>
    var imports: ImportMaps
    /** The remaining per-file maps and sets, by the elements they key. */
    var otherPerFileState: set<Element>
    var holder: Option<HolderId>
    var file: Option<FileId>
    var collector: Option<FileId>

    /** Every cached answer is the element's surrounding constructor. */
    ghost predicate Valid()
      reads this
    {
      && WellFormed(tree)
      && forall k | k in constructorCache :: constructorCache[k] == SurroundingConstructor(tree, k)
    }

    constructor ()
      ensures Valid()
      ensures constructorCache == map[] && !hasError && holderCalls == []
      ensures imports == ImportMaps(map[], map[]) && otherPerFileState == {}
      ensures holder == None && file == None && collector == None
    {
      tree := Tree(map[], {}, {});
      constructorCache := map[];
      hasError := false;
      holderCalls := [];
      imports := ImportMaps(map[], map[]);
      otherPerFileState := {};
      holder, file, collector := None, None, None;
    }

    /**
     * The first loop of `findSurroundingConstructor`: up from `entry` to the
     * first element that is cached or a constructor, reading off the answer
     * there; it stops at the file or the top when there is none.
     */
    method WalkToKnownAnswer(entry: Element) returns (result: Option<Element>, element: Option<Element>)
      requires WellFormed(tree)
      ensures var chain := Chain(tree, entry);
              var stop := StopIndex(tree, constructorCache, chain);
              && result == AnswerAtStop(tree, constructorCache, chain)
              && (stop < |chain| ==> element == Some(chain[stop]))
              && (stop == |chain| ==> element.None? || element.value in tree.files)
    {
      ghost var chain := Chain(tree, entry);
      result := None;
      element := Some(entry);
      var stopped := false;
      ghost var i := 0;
      while !stopped && element.Some? && element.value !in tree.files
        invariant 0 <= i <= |chain|
        invariant !stopped && element.Some? && element.value !in tree.files ==>
                    i < |chain| && element.value == chain[i] && Chain(tree, element.value) == chain[i..]
        invariant !stopped && !(element.Some? && element.value !in tree.files) ==> i == |chain|
        invariant forall j | 0 <= j < i :: chain[j] !in constructorCache && chain[j] !in tree.constructors
        invariant stopped ==> (i < |chain| && element == Some(chain[i]) &&
                               (chain[i] in constructorCache || chain[i] in tree.constructors) &&
                               result == (if chain[i] in constructorCache then constructorCache[chain[i]] else Some(chain[i])))
        invariant !stopped ==> result == None
        decreases |chain| - i, if stopped then 0 else 1
      {
        var e := element.value;
        if e in constructorCache {
          result := constructorCache[e];
          stopped := true;
        } else if e in tree.constructors {
          result := Some(e);
          stopped := true;
        } else {
          WalkStep(tree, entry, i);
          element := if e in tree.parent then Some(tree.parent[e]) else None;
          i := i + 1;
        }
      }
      assert StopIndex(tree, constructorCache, chain) == i;
    }

    /**
     * The second loop of `findSurroundingConstructor`: from `entry` upwards,
     * every element gets `result`, up to and including `element`, or up to
     * the file or the top when `element` is not on the walk. `n` is the
     * number of elements that makes.
     */
    method CacheWalk(entry: Element, element: Option<Element>, result: Option<Element>, ghost n: nat)
      requires WellFormed(tree)
      requires var chain := Chain(tree, entry);
               && n <= |chain|
               && (forall j | 0 <= j && j + 1 < n :: element != Some(chain[j]))
               && (n < |chain| ==> n > 0 && element == Some(chain[n - 1]))
      modifies this
      ensures tree == old(tree) && hasError == old(hasError) && holderCalls == old(holderCalls)
      ensures constructorCache == CacheAll(old(constructorCache), Chain(tree, entry)[..n], result)
      ensures imports == old(imports) && otherPerFileState == old(otherPerFileState)
      ensures holder == old(holder) && file == old(file) && collector == old(collector)
    {
      var t := tree;
      ghost var chain := Chain(t, entry);
      ghost var cache0 := constructorCache;
      var cache := constructorCache;
      var current: Option<Element> := Some(entry);
      ghost var j := 0;
      while current.Some? && current.value !in t.files
        invariant 0 <= j <= n
        invariant j < n ==> current == Some(chain[j])
        invariant j == n ==> n == |chain| && (current.None? || current.value in t.files)
        invariant cache == CacheAll(cache0, chain[..j], result)
        modifies {}
        decreases n - j
      {
        var e := current.value;
        CacheWalkStep(t, entry, element, n, j);
        CacheAllStep(cache0, chain, j, result);
        cache := cache[e := result];
        j := j + 1;
        if element == Some(e) {
          break;
        }
        current := if e in t.parent then Some(t.parent[e]) else None;
      }
      constructorCache := cache;
    }

    /**
     * `findSurroundingConstructor`: walks up until a cached element or a
     * constructor, then caches the answer for every element walked, the
     * stopping one included. With a consistent cache the answer is the
     * surrounding constructor, and the cache stays consistent.
     */
    method FindSurroundingConstructor(entry: Element) returns (result: Option<Element>)
      requires Valid()
      modifies this
      ensures Valid()
      ensures result == SurroundingConstructor(tree, entry)
      ensures var chain := Chain(tree, entry);
              var stop := StopIndex(tree, old(constructorCache), chain);
              && (stop < |chain| && chain[stop] in old(constructorCache) ==> result == old(constructorCache)[chain[stop]])
              && constructorCache == CacheAll(old(constructorCache), chain[..CachedLength(stop, chain)], result)
      ensures tree == old(tree) && hasError == old(hasError) && holderCalls == old(holderCalls)
      ensures imports == old(imports) && otherPerFileState == old(otherPerFileState)
      ensures holder == old(holder) && file == old(file) && collector == old(collector)
    {
      var element;
      result, element := WalkToKnownAnswer(entry);
      ghost var chain := Chain(tree, entry);
      ghost var n := CachedLength(StopIndex(tree, constructorCache, chain), chain);
      ghost var cache0 := constructorCache;
      WalkFacts(tree, cache0, entry, result, element);
      CacheWalk(entry, element, result, n);
      assert constructorCache == CacheAll(cache0, chain[..n], result);
      assert Valid();
    }

    /** `visit`: the flag is reset before the element is dispatched. */
    method Visit()
      modifies this
      ensures !hasError
      ensures constructorCache == old(constructorCache) && holderCalls == old(holderCalls) && tree == old(tree)
      ensures imports == old(imports) && otherPerFileState == old(otherPerFileState)
      ensures holder == old(holder) && file == old(file) && collector == old(collector)
    {
      hasError := false;
    }

    /**
     * `add`: a missing builder changes nothing and gives false; otherwise the
     * created info goes to the holder, whose answer is returned, and the flag
     * is raised (never lowered) when the info is at least an error.
     */
    method Add(builder: Option<Builder>, holderAccepts: bool) returns (added: bool)
      modifies this
      ensures builder.None? ==> !added && holderCalls == old(holderCalls)
      ensures builder.Some? ==> added == holderAccepts && holderCalls == old(holderCalls) + [builder.value.created]
      ensures hasError == (old(hasError) || MakesError(builder))
      ensures constructorCache == old(constructorCache) && tree == old(tree)
      ensures imports == old(imports) && otherPerFileState == old(otherPerFileState)
      ensures holder == old(holder) && file == old(file) && collector == old(collector)
    {
      if builder.None? {
        return false;
      }
      var info := builder.value.created;
      if info.Some? && info.value.severity >= ErrorSeverity {
        hasError := true;
      }
      holderCalls := holderCalls + [info];
      added := holderAccepts;
    }

    /**
     * The visiting pattern `if (!hasErrorResults()) add(check(...))`: each
     * check runs only while no error has been flagged, so the checks after
     * the first error are never asked.
     */
    method AddGuarded(checks: seq<Option<Builder>>)
      modifies this
      ensures holderCalls == old(holderCalls) + HolderCalls(checks[..GuardedRuns(old(hasError), checks)])
      ensures hasError == (old(hasError) || exists j | 0 <= j < |checks| :: MakesError(checks[j]))
      ensures constructorCache == old(constructorCache) && tree == old(tree)
      ensures imports == old(imports) && otherPerFileState == old(otherPerFileState)
      ensures holder == old(holder) && file == old(file) && collector == old(collector)
    {
      ghost var calls0 := holderCalls;
      ghost var error0 := hasError;
      var i := 0;
      while i < |checks|
        invariant 0 <= i <= |checks|
        invariant hasError == (error0 || AnyError(checks[..i]))
        invariant holderCalls == calls0 + HolderCalls(checks[..GuardedRuns(error0, checks[..i])])
        invariant constructorCache == old(constructorCache) && tree == old(tree)
        invariant imports == old(imports) && otherPerFileState == old(otherPerFileState)
        invariant holder == old(holder) && file == old(file) && collector == old(collector)
      {
        GuardedStep(error0, checks, i);
        if !hasError {
          var _ := Add(checks[i], true);
        }
        i := i + 1;
      }
      assert checks[..i] == checks;
    }

    /**
     * The resolved branch of `visitImportStaticReferenceElement`, and the
     * unresolved one: an empty result reports an unresolved symbol (or a
     * pending reference in an incomplete model); otherwise every result is
     * run through the two maps in order and its conflict message reported.
     */
    method VisitImportStaticReference(ref: RefId, name: string, results: seq<Resolved>, incompleteModel: bool)
      returns (messages: seq<ImportMessage>)
      modifies this
      ensures results == [] ==> (imports == old(imports) &&
                                 messages == [if incompleteModel then PendingReference else CannotResolveSymbol])
      ensures results != [] ==> (imports, messages) == ImportAll(old(imports), ref, name, results)
      ensures constructorCache == old(constructorCache) && tree == old(tree) && hasError == old(hasError)
      ensures holderCalls == old(holderCalls) && otherPerFileState == old(otherPerFileState)
      ensures holder == old(holder) && file == old(file) && collector == old(collector)
    {
      if results == [] {
        messages := [if incompleteModel then PendingReference else CannotResolveSymbol];
        return;
      }
      messages := [];
      var i := 0;
      while i < |results|
        invariant 0 <= i <= |results|
        invariant (imports, messages) == ImportAll(old(imports), ref, name, results[..i])
        invariant constructorCache == old(constructorCache) && tree == old(tree) && hasError == old(hasError)
        invariant holderCalls == old(holderCalls) && otherPerFileState == old(otherPerFileState)
        invariant holder == old(holder) && file == old(file) && collector == old(collector)
      {
        ImportAllSnoc(old(imports), ref, name, results[..i], results[i]);
        assert results[..i + 1] == results[..i] + [results[i]];
        var (m, message) := ImportStep(imports, ref, name, results[i]);
        imports := m;
        messages := messages + MessageSeq(message);
        i := i + 1;
      }
      assert results[..i] == results;
    }

    /**
     * `analyze`: prepares for the file, runs the highlighting pass (here the
     * static imports it meets, throwing after `failAfter` of them if given),
     * and in every case clears the per-file state and the holder, file and
     * collector afterwards.
     */
    method Analyze(f: FileId, t: Tree, h: HolderId, pass: seq<StaticImport>, failAfter: Option<nat>)
      returns (outcome: AnalyzeOutcome)
      requires WellFormed(t)
      modifies this
      ensures Valid()
      ensures constructorCache == map[] && imports == ImportMaps(map[], map[]) && otherPerFileState == {}
      ensures holder == None && file == None && collector == None
      ensures outcome == (if failAfter.Some? && failAfter.value < |pass| then Threw else Returned(true))
    {
      holder, file, collector := Some(h), Some(f), Some(f);
      tree := t;
      var i := 0;
      outcome := Returned(true);
      while i < |pass|
        invariant 0 <= i <= |pass|
        invariant outcome == (if failAfter.Some? && failAfter.value < i then Threw else Returned(true))
        invariant WellFormed(tree)
      {
        if failAfter == Some(i) {
          outcome := Threw;
          break;
        }
        var _ := VisitImportStaticReference(pass[i].ref, pass[i].name, pass[i].results, pass[i].incompleteModel);
        i := i + 1;
      }
      // the finally block
      imports := ImportMaps(map[], map[]);
      otherPerFileState := {};
      constructorCache := map[];
      holder, file, collector := None, None, None;
    }
  }

  /** The prefix opens with "class=", has no other 'c', and no quote before its sixth character. */
  lemma PrefixLetters(k: nat)
    requires k < |ColorClassPrefix|
    ensures 0 < k ==> ColorClassPrefix[k] != 'c'
    ensures k < 5 ==> ColorClassPrefix[k] != '"'
    ensures ColorClassPrefix[5] == '=' && !IsWordChar('=')
  {
  }

  /** The characters of a match: the prefix, then the name's word characters, then the closing quote. */
  lemma MatchCharAt(s: string, k: nat)
    requires MatchAt(s).Some? && k < MatchAt(s).value.length
    ensures k < |ColorClassPrefix| ==> s[k] == ColorClassPrefix[k]
    ensures |ColorClassPrefix| <= k < MatchAt(s).value.length - 1 ==> IsWordChar(s[k])
    ensures k == MatchAt(s).value.length - 1 ==> s[k] == '"'
  {
    var m := MatchAt(s).value;
    var n := |ColorClassPrefix|;
    MatchShape(s);
    assert s[k] == s[..m.length][k];
    if n <= k < m.length - 1 {
      assert s[..m.length][k] == m.name[k - n];
    }
  }

  /**
   * The character `j` places after `q` inside a match: what a second match
   * starting at `q` would need there, and what the first match has there.
   */
  lemma MatchCharsAt(s: string, q: nat, j: nat)
    requires q <= |s| && MatchAt(s).Some? && q + j < MatchAt(s).value.length
    ensures MatchAt(s[q..]).Some? && j < |ColorClassPrefix| ==> s[q + j] == ColorClassPrefix[j]
    ensures q + j < |ColorClassPrefix| ==> s[q + j] == ColorClassPrefix[q + j]
    ensures |ColorClassPrefix| <= q + j < MatchAt(s).value.length - 1 ==> IsWordChar(s[q + j])
    ensures q + j == MatchAt(s).value.length - 1 ==> s[q + j] == '"'
  {
    MatchCharAt(s, q + j);
    if MatchAt(s[q..]).Some? && j < |ColorClassPrefix| {
      MatchShape(s[q..]);
      MatchCharAt(s[q..], j);
    }
  }

  /** No other match starts strictly inside a match. */
  lemma NoMatchInside(s: string, q: nat)
    requires MatchAt(s).Some? && 0 < q < MatchAt(s).value.length
    ensures MatchAt(s[q..]).None?
  {
    var len := MatchAt(s).value.length;
    if q < |ColorClassPrefix| {
      // a second match would need another 'c' inside the prefix
      PrefixLetters(q);
      MatchCharsAt(s, q, 0);
    } else if len - 1 - q < 5 {
      // a second match would need a letter of "class" where the closing quote is
      PrefixLetters(len - 1 - q);
      MatchCharsAt(s, q, len - 1 - q);
    } else {
      // a second match would need '=' five characters on, inside the name or on its closing quote
      PrefixLetters(5);
      MatchCharsAt(s, q, 5);
    }
  }

  /** No known class starts before position `n` of `s`. */
  predicate NoKnownClassBefore(s: string, n: nat, colors: map<string, string>)
    requires n <= |s|
  {
    forall p | 0 <= p < n :: MatchAt(s[p..]).None? || MatchAt(s[p..]).value.name !in colors
  }

  /** No match at all starts in positions `lo` to `hi` of `s`. */
  predicate NoMatchBetween(s: string, lo: nat, hi: nat)
    requires lo <= hi <= |s|
  {
    forall p | lo <= p < hi :: MatchAt(s[p..]).None?
  }

  lemma NoKnownClassBeforeShift(s: string, n: nat, k: nat, colors: map<string, string>)
    requires k <= n <= |s| && NoKnownClassBefore(s, n, colors)
    ensures NoKnownClassBefore(s[k..], n - k, colors)
  {
    forall p | 0 <= p < n - k
      ensures MatchAt(s[k..][p..]).None? || MatchAt(s[k..][p..]).value.name !in colors
    {
      assert s[k..][p..] == s[k + p..];
    }
  }

  lemma NoMatchBetweenShift(s: string, lo: nat, hi: nat)
    requires 0 < lo <= hi <= |s| && NoMatchBetween(s, lo, hi)
    ensures NoMatchBetween(s[1..], lo - 1, hi - 1)
  {
    forall p | lo - 1 <= p < hi - 1 ensures MatchAt(s[1..][p..]).None? {
      assert s[1..][p..] == s[p + 1..];
    }
  }

  /** The positions strictly inside a match that starts at the front. */
  lemma InsideFirstMatch(s: string, lo: nat)
    requires MatchAt(s).Some? && 0 < lo <= MatchAt(s).value.length
    ensures NoMatchBetween(s, lo, MatchAt(s).value.length)
  {
    forall p | lo <= p < MatchAt(s).value.length ensures MatchAt(s[p..]).None? {
      NoMatchInside(s, p);
    }
  }

  /** Where no match starts from `lo` up to `hi`, the rewrite from `lo` copies those characters. */
  lemma {:induction false} CopyUntil(s: string, lo: nat, hi: nat, colors: map<string, string>)
    requires lo <= hi <= |s| && NoMatchBetween(s, lo, hi)
    ensures Rewrite(s[lo..], colors) == s[lo..hi] + Rewrite(s[hi..], colors)
    decreases hi - lo
  {
    if lo == hi {
      assert s[lo..hi] == [];
    } else {
      assert MatchAt(s[lo..]).None?;
      CopyOne(s[lo..], colors);
      assert s[lo..][1..] == s[lo + 1..];
      CopyUntil(s, lo + 1, hi, colors);
      PrependCopy(s, lo, hi, Rewrite(s[lo..], colors), Rewrite(s[lo + 1..], colors), Rewrite(s[hi..], colors));
    }
  }

  /** Without a match at the front, the rewrite copies the first character. */
  lemma CopyOne(t: string, colors: map<string, string>)
    requires t != [] && MatchAt(t).None?
    ensures Rewrite(t, colors) == [t[0]] + Rewrite(t[1..], colors)
  {
  }

  lemma PrependCopy(s: string, lo: nat, hi: nat, whole: string, next: string, after: string)
    requires lo < hi <= |s|
    requires whole == [s[lo]] + next && next == s[lo + 1..hi] + after
    ensures whole == s[lo..hi] + after
  {
    assert s[lo..hi] == [s[lo]] + s[lo + 1..hi];
  }

  /** The first step of the rewrite when no known class starts at the front: it copies the `k` characters it consumes. */
  lemma CopyStep(s: string, colors: map<string, string>) returns (k: nat)
    requires s != [] && (MatchAt(s).None? || MatchAt(s).value.name !in colors)
    ensures k == (if MatchAt(s).Some? then MatchAt(s).value.length else 1)
    ensures 0 < k <= |s| && Rewrite(s, colors) == s[..k] + Rewrite(s[k..], colors)
  {
    if MatchAt(s).None? {
      assert s[..1] == [s[0]];
      k := 1;
    } else {
      k := MatchAt(s).value.length;
      MatchShape(s);
    }
  }

  /** Where no known class starts before `n`, the rewrite copies the first `n` characters. */
  lemma {:induction false} CopyBefore(s: string, n: nat, colors: map<string, string>)
    requires n <= |s| && NoKnownClassBefore(s, n, colors)
    ensures Rewrite(s, colors) == s[..n] + Rewrite(s[n..], colors)
    decreases n
  {
    if n == 0 {
      assert s[..0] == [] && s[0..] == s;
    } else {
      assert s[0..] == s;
      var k := CopyStep(s, colors);
      if k <= n {
        NoKnownClassBeforeShift(s, n, k, colors);
        CopyBefore(s[k..], n - k, colors);
        CopyBeforeJoin(s, k, n, colors);
      } else {
        CopyAcross(s, k, n, colors);
      }
    }
  }

  lemma CopyBeforeJoin(s: string, k: nat, n: nat, colors: map<string, string>)
    requires k <= n <= |s|
    requires Rewrite(s, colors) == s[..k] + Rewrite(s[k..], colors)
    requires Rewrite(s[k..], colors) == s[k..][..n - k] + Rewrite(s[k..][n - k..], colors)
    ensures Rewrite(s, colors) == s[..n] + Rewrite(s[n..], colors)
  {
    var tail := s[k..][n - k..];
    assert tail == s[n..];
    assert s[k..][..n - k] == s[k..n];
    ExtendCopy(s, k, n, Rewrite(s, colors), Rewrite(s[k..], colors), Rewrite(tail, colors));
  }

  /** Copying up to `a` and then on to `b` is copying up to `b`. */
  lemma ExtendCopy(s: string, a: nat, b: nat, whole: string, fromA: string, fromB: string)
    requires a <= b <= |s|
    requires whole == s[..a] + fromA && fromA == s[a..b] + fromB
    ensures whole == s[..b] + fromB
  {
    assert s[..b] == s[..a] + s[a..b];
  }

  /** An unknown match at the front that runs past `n` is copied by the rewrite from `n` too. */
  lemma CopyAcross(s: string, k: nat, n: nat, colors: map<string, string>)
    requires 0 < n < k && MatchAt(s).Some? && k == MatchAt(s).value.length
    requires Rewrite(s, colors) == s[..k] + Rewrite(s[k..], colors)
    ensures Rewrite(s, colors) == s[..n] + Rewrite(s[n..], colors)
  {
    InsideFirstMatch(s, n);
    CopyUntil(s, n, k, colors);
    JoinCopies(s, n, k, Rewrite(s, colors), Rewrite(s[n..], colors), Rewrite(s[k..], colors));
  }

  /** Copying up to `k`, where the part from `n` on is a copy, is copying up to `n`. */
  lemma JoinCopies(s: string, n: nat, k: nat, whole: string, fromN: string, fromK: string)
    requires n <= k <= |s|
    requires whole == s[..k] + fromK && fromN == s[n..k] + fromK
    ensures whole == s[..n] + fromN
  {
    assert s[..k] == s[..n] + s[n..k];
  }

  /**
   * Text before the first known class is copied unchanged and in order: where
   * no known class starts inside `u`, the rewrite of `u + rest` is `u`
   * followed by the rewrite of `rest`.
   */
  lemma RewriteKeepsTextBeforeClasses(u: string, rest: string, colors: map<string, string>)
    requires forall p | 0 <= p < |u| :: MatchAt((u + rest)[p..]).None? || MatchAt((u + rest)[p..]).value.name !in colors
    ensures Rewrite(u + rest, colors) == u + Rewrite(rest, colors)
  {
    var s := u + rest;
    assert NoKnownClassBefore(s, |u|, colors);
    CopyBefore(s, |u|, colors);
    assert s[..|u|] == u && s[|u|..] == rest;
  }

  /** `postProcessClasses`: scans left to right, appending each replacement and the text between matches. */
  method PostProcessClasses(html: string, information: string, grayed: string, error: string) returns (result: string)
    ensures result == Rewrite(html, TooltipColors(information, grayed, error))
  {
    var colors := TooltipColors(information, grayed, error);
    ghost var target := Rewrite(html, colors);
    result := [];
    var p := 0;
    ScanStart(html, colors, target);
    while p < |html|
      invariant 0 <= p <= |html|
      invariant result + Rewrite(html[p..], colors) == target
      decreases |html| - p
    {
      var piece, length := NextPiece(html, p, colors);
      ScanStep(html, p, colors, result, piece, length, target);
      result := result + piece;
      p := p + length;
    }
    ScanEnd(html, p, colors, result, target);
  }

  lemma ScanStart(html: string, colors: map<string, string>, target: string)
    requires target == Rewrite(html, colors)
    ensures [] + Rewrite(html[0..], colors) == target
  {
    assert html[0..] == html;
  }

  lemma ScanEnd(html: string, p: nat, colors: map<string, string>, result: string, target: string)
    requires p == |html| && result + Rewrite(html[p..], colors) == target
    ensures result == target
  {
    assert html[p..] == [];
  }



  /**
   * One step of the matcher at `p`: the replacement of a class match that
   * starts there, or else the single character there, and how much it consumes.
   */
  method NextPiece(html: string, p: nat, colors: map<string, string>) returns (piece: string, length: nat)
    requires p < |html|
    ensures 0 < length && p + length <= |html|
    ensures Rewrite(html[p..], colors) == piece + Rewrite(html[p + length..], colors)
  {
    var m := MatchAt(html[p..]);
    if m.Some? {
      piece := Replacement(m.value, colors);
      length := m.value.length;
    } else {
      piece := [html[p]];
      length := 1;
    }
    RewriteAt(html, p, colors, piece, length);
  }

  /** The scan's invariant survives one step. */
  lemma ScanStep(html: string, p: nat, colors: map<string, string>, result: string, piece: string, length: nat, target: string)
    requires p + length <= |html|
    requires Rewrite(html[p..], colors) == piece + Rewrite(html[p + length..], colors)
    requires result + Rewrite(html[p..], colors) == target
    ensures (result + piece) + Rewrite(html[p + length..], colors) == target
  {
    assert (result + piece) + Rewrite(html[p + length..], colors) == result + (piece + Rewrite(html[p + length..], colors));
  }

  /** One step of the scan at position `p`: the piece it appends, and the rewrite of what follows. */
  lemma RewriteAt(html: string, p: nat, colors: map<string, string>, piece: string, length: nat)
    requires p < |html|
    requires var m := MatchAt(html[p..]);
             if m.Some? then piece == Replacement(m.value, colors) && length == m.value.length
             else piece == [html[p]] && length == 1
    ensures p + length <= |html|
    ensures Rewrite(html[p..], colors) == piece + Rewrite(html[p + length..], colors)
  {
    assert html[p..][length..] == html[p + length..];
  }

  lemma NotATooltipClass(name: string, information: string, grayed: string, error: string)
    requires name !in {"information", "grayed", "error"}
    ensures name !in TooltipColors(information, grayed, error)
  {
  }

  /** A tooltip without a recognised colour class is left exactly as it is. */
  lemma PlainTooltipUnchanged(html: string, information: string, grayed: string, error: string)
    requires forall p | 0 <= p < |html| :: MatchAt(html[p..]).None? ||
               MatchAt(html[p..]).value.name !in {"information", "grayed", "error"}
    ensures Rewrite(html, TooltipColors(information, grayed, error)) == html
  {
    var colors := TooltipColors(information, grayed, error);
    forall p | 0 <= p < |html| ensures MatchAt(html[p..]).None? || MatchAt(html[p..]).value.name !in colors {
      var m := MatchAt(html[p..]);
      if m.Some? {
        NotATooltipClass(m.value.name, information, grayed, error);
      }
    }
    RewriteKeepsUnknownText(html, colors);
  }
}
