/**
 * The per-SDK cache of Python builtins: top-level lookup in the builtins
 * skeleton with the exceptions skeleton as fallback, a name-to-type cache
 * that is emptied whenever the builtins file's modification stamp moves,
 * the language-level choice of type names and the skeleton module name.
 * Skeleton files are abstract: a stamp, a validity flag, the top-level
 * names they define and the classes among them.
 */
module BuiltinCache {
  import opened Wrappers

  type ElementId = nat
  type ClassId = nat

  datatype LanguageLevel = Python2(minor: nat) | Python3(minor: nat)

  const BuiltinFile: string := "__builtin__.py"
  const BuiltinFile3K: string := "builtins.py"
  const ExceptionsFile: string := "exceptions.py"

  /** `getBuiltinsFileName`: the Python 2 name for Python 2, the Python 3 name for every other level. */
  function BuiltinsFileName(level: LanguageLevel): (r: string)
    ensures level.Python2? ==> r == BuiltinFile
    ensures level.Python3? ==> r == BuiltinFile3K
  {
    if level.Python2? then BuiltinFile else BuiltinFile3K
  }

  /** `name.indexOf(c)`: the first position of `c`, or -1. */
  function IndexOf(s: string, c: char): (r: int)
    ensures -1 <= r < |s|
    ensures r == -1 <==> c !in s
    ensures r >= 0 ==> s[r] == c && c !in s[..r]
  {
    if s == [] then -1
    else if s[0] == c then 0
    else
      var rest := IndexOf(s[1..], c);
      assert s[1..][..if rest >= 0 then rest else 0] == s[1..if rest >= 0 then rest + 1 else 1];
      if rest == -1 then -1 else rest + 1
  }

  /**
   * The module name `getSkeletonFile` resolves: the file name cut at its
   * first '.', or the whole name when it has none.
   */
  function SkeletonModuleName(name: string): (r: string)
    ensures r <= name
    ensures '.' !in r
    ensures |r| < |name| <==> '.' in name
    ensures |r| < |name| ==> name[|r|] == '.'
  {
    var index := IndexOf(name, '.');
    if index != -1 then name[..index] else name
  }

  /** The first dot decides the module name, whatever follows it. */
  lemma ModuleNameAtFirstDot(name: string, k: nat)
    requires k < |name| && name[k] == '.' && '.' !in name[..k]
    ensures SkeletonModuleName(name) == name[..k]
  {
  }

  /** An element found by resolving a qualified name: a Python file or something else. */
  datatype Resolved = PyFileResult(file: nat) | OtherElement(element: ElementId)

  /**
   * `getSkeletonFile`: only the Python SDK type resolves anything; then the
   * first element the stripped name resolves to, if it is a Python file.
   * `resolve` stands for the import resolver of the SDK.
   */
  function GetSkeletonFile(isPythonSdk: bool, name: string, resolve: string -> seq<Resolved>): (r: Option<nat>)
    ensures !isPythonSdk ==> r == None
    ensures r.Some? ==> var results := resolve(SkeletonModuleName(name));
                        |results| > 0 && results[0] == PyFileResult(r.value)
    ensures (isPythonSdk && |resolve(SkeletonModuleName(name))| > 0 &&
             resolve(SkeletonModuleName(name))[0].PyFileResult?) ==> r.Some?
  {
    if !isPythonSdk then None
    else
      var results := resolve(SkeletonModuleName(name));
      if |results| > 0 && results[0].PyFileResult? then Some(results[0].file) else None
  }

  /** A skeleton file: its stamp moves forward on every change to its contents. */
  class PyFile {
    var stamp: nat
    var valid: bool
    /** `getElementNamed`: top-level names to elements. */
    var topLevel: map<string, ElementId>
    /** `findTopLevelClass`: top-level class names to classes. */
    var classes: map<string, ClassId>

    constructor (valid: bool, topLevel: map<string, ElementId>, classes: map<string, ClassId>)
      ensures this.stamp == 0 && this.valid == valid && this.topLevel == topLevel && this.classes == classes
    {
      this.stamp := 0;
      this.valid := valid;
      this.topLevel := topLevel;
      this.classes := classes;
    }

    /** An edit of the file: new contents and a later stamp. */
    method Modify(topLevel: map<string, ElementId>, classes: map<string, ClassId>)
      modifies this
      ensures this.stamp > old(this.stamp) && this.valid == old(this.valid)
      ensures this.topLevel == topLevel && this.classes == classes
    {
      this.stamp := this.stamp + 1;
      this.topLevel := topLevel;
      this.classes := classes;
    }
  }

  /** `PyClassTypeImpl`: a class seen as an instance type (not a definition). */
  datatype ClassType = ClassType(cls: ClassId, isDefinition: bool)

  /** The class type a fresh lookup of `name` in `file` gives. */
  function FreshType(file: PyFile?, name: string): Option<ClassType>
    reads file
  {
    if file != null && name in file.classes then Some(ClassType(file.classes[name], false)) else None
  }

  /** A PSI element, as far as `isBuiltin` looks at it: valid or not, and its containing Python file (null if not one). */
  datatype Target = Target(valid: bool, containingPyFile: PyFile?)

  class PyBuiltinCache {
    const builtinsFile: PyFile?
    const exceptionsFile: PyFile?
    var typeCache: map<string, ClassType>
    var modStamp: int

    /**
     * Without a builtins file nothing is ever cached; with one, the stored
     * stamp never runs ahead of the file's, and while they agree every cached
     * type is what a fresh lookup would give.
     */
    ghost predicate Valid()
      reads this, builtinsFile
    {
      && (builtinsFile == null ==> typeCache == map[])
      && (builtinsFile != null ==> modStamp <= builtinsFile.stamp)
      && (builtinsFile != null && modStamp == builtinsFile.stamp ==>
            forall n | n in typeCache :: FreshType(builtinsFile, n) == Some(typeCache[n]))
    }

    constructor (builtins: PyFile?, exceptions: PyFile?)
      ensures Valid()
      ensures builtinsFile == builtins && exceptionsFile == exceptions
      ensures typeCache == map[] && modStamp == -1
    {
      builtinsFile := builtins;
      exceptionsFile := exceptions;
      typeCache := map[];
      modStamp := -1;
    }

    /** `isValid`. */
    predicate IsValid()
      reads this, builtinsFile
    {
      builtinsFile != null && builtinsFile.valid
    }

    /** `getByName`: the builtins file's element if it has one, else the exceptions file's. */
    function GetByName(name: string): (r: Option<ElementId>)
      reads this, builtinsFile, exceptionsFile
      ensures builtinsFile != null && name in builtinsFile.topLevel ==> r == Some(builtinsFile.topLevel[name])
      ensures (builtinsFile == null || name !in builtinsFile.topLevel) ==>
                r == (if exceptionsFile != null && name in exceptionsFile.topLevel
                      then Some(exceptionsFile.topLevel[name]) else None)
      ensures r.None? <==> (builtinsFile == null || name !in builtinsFile.topLevel) &&
                           (exceptionsFile == null || name !in exceptionsFile.topLevel)
    {
      if builtinsFile != null && name in builtinsFile.topLevel then Some(builtinsFile.topLevel[name])
      else if exceptionsFile != null && name in exceptionsFile.topLevel then Some(exceptionsFile.topLevel[name])
      else None
    }

    /** `getClass`: only the builtins file is consulted. */
    function GetClass(name: string): (r: Option<ClassId>)
      reads this, builtinsFile
      ensures r.Some? <==> builtinsFile != null && name in builtinsFile.classes
      ensures r.Some? ==> r.value == builtinsFile.classes[name]
    {
      if builtinsFile != null && name in builtinsFile.classes then Some(builtinsFile.classes[name]) else None
    }

    /**
     * `getObjectType`: the cache is emptied and the stamp taken over when the
     * builtins file's stamp has moved; a hit is returned as is, a miss is
     * looked up and stored only when the class exists. Whatever the cache
     * holds, the answer is the one a fresh lookup gives.
     */
    method GetObjectType(name: string) returns (t: Option<ClassType>)
      requires Valid()
      modifies this
      ensures Valid()
      ensures t == FreshType(builtinsFile, name)
      ensures builtinsFile != null ==> modStamp == builtinsFile.stamp
      ensures builtinsFile == null ==> modStamp == old(modStamp)
      ensures t.None? ==> name !in typeCache
      ensures t.Some? ==> name in typeCache && typeCache[name] == t.value
      ensures builtinsFile != null && old(modStamp) != builtinsFile.stamp ==> typeCache.Keys <= {name}
      ensures builtinsFile != null && old(modStamp) == builtinsFile.stamp ==>
                typeCache == (if t.Some? then old(typeCache)[name := t.value] else old(typeCache))
    {
      if builtinsFile != null {
        if builtinsFile.stamp != modStamp {
          typeCache := map[];
          modStamp := builtinsFile.stamp;
        }
      }
      if name in typeCache {
        t := Some(typeCache[name]);
      } else {
        var cls := GetClass(name);
        if cls.Some? {
          t := Some(ClassType(cls.value, false));
          typeCache := typeCache[name := t.value];
        } else {
          t := None;
        }
      }
    }

    /** `getStrOrUnicodeType`: "str" then "unicode", the union of those that exist. */
    method GetStrOrUnicodeType() returns (members: seq<ClassType>)
      requires Valid()
      modifies this
      ensures Valid()
      ensures members == Present(FreshType(builtinsFile, "str")) + Present(FreshType(builtinsFile, "unicode"))
    {
      var str := GetObjectType("str");
      var unicode := GetObjectType("unicode");
      members := Present(str) + Present(unicode);
    }

    /** `isBuiltin`: a valid element whose containing Python file is the builtins or the exceptions file itself. */
    predicate IsBuiltin(target: Option<Target>)
      reads this
    {
      target.Some? && target.value.valid && target.value.containingPyFile != null &&
      (target.value.containingPyFile == builtinsFile || target.value.containingPyFile == exceptionsFile)
    }
  }

  /** A union member list: the type if there is one. */
  function Present(t: Option<ClassType>): (r: seq<ClassType>)
    ensures |r| <= 1 && (r == [] <==> t.None?)
  {
    if t.Some? then [t.value] else []
  }

  /** An edit of the builtins file leaves the cache consistent: its stale entries are unreachable until cleared. */
  method EditKeepsCacheValid(cache: PyBuiltinCache, topLevel: map<string, ElementId>, classes: map<string, ClassId>)
    requires cache.Valid() && cache.builtinsFile != null
    modifies cache.builtinsFile
    ensures cache.Valid()
    ensures cache.modStamp != cache.builtinsFile.stamp
  {
    cache.builtinsFile.Modify(topLevel, classes);
  }

  /** Asking twice in a row gives the same answer, and the second time it comes from the cache. */
  method RepeatedLookupIsCached(cache: PyBuiltinCache, name: string) returns (first: Option<ClassType>, second: Option<ClassType>)
    requires cache.Valid()
    modifies cache
    ensures first == second
    ensures first.Some? ==> name in cache.typeCache
  {
    first := cache.GetObjectType(name);
    var before := cache.typeCache;
    second := cache.GetObjectType(name);
    assert cache.builtinsFile != null ==> cache.typeCache == before;
  }

  /** The fail-fast instance built without files finds nothing, is not valid and owns no element. */
  lemma DudInstanceKnowsNothing(dud: PyBuiltinCache, name: string, target: Option<Target>)
    requires dud.builtinsFile == null && dud.exceptionsFile == null
    ensures dud.GetByName(name) == None && dud.GetClass(name) == None
    ensures !dud.IsValid() && !dud.IsBuiltin(target)
  {
  }

  /** A target counts as builtin only if it sits in one of the cache's two files. */
  lemma IsBuiltinOnlyInCacheFiles(cache: PyBuiltinCache, target: Target)
    ensures cache.IsBuiltin(Some(target)) <==>
              target.valid && target.containingPyFile != null &&
              (target.containingPyFile == cache.builtinsFile || target.containingPyFile == cache.exceptionsFile)
    ensures !cache.IsBuiltin(None)
  {
  }

  // ---- language-level name choices ----

  /** `getBytesType`: "bytes" on Python 3, "str" on Python 2. */
  function BytesTypeName(level: LanguageLevel): string
  {
    if level.Python3? then "bytes" else "str"
  }

  /** `getUnicodeType`: "str" on Python 3, "unicode" on Python 2. */
  function UnicodeTypeName(level: LanguageLevel): string
  {
    if level.Python3? then "str" else "unicode"
  }

  /** `getStringType`: "str" on Python 3, the union of "str" and "unicode" on Python 2. */
  function StringTypeNames(level: LanguageLevel): seq<string>
  {
    if level.Python3? then ["str"] else ["str", "unicode"]
  }

  /** `getByteStringType`: "bytes" on Python 3, the union of "str" and "unicode" on Python 2. */
  function ByteStringTypeNames(level: LanguageLevel): seq<string>
  {
    if level.Python3? then ["bytes"] else ["str", "unicode"]
  }

  /**
   * The names agree with each language's string model: bytes and text are
   * always different types; on Python 3 a string is text, on Python 2 it is
   * either bytes or text; a byte string is bytes on Python 3 and any string on
   * Python 2.
   */
  lemma StringNamesFollowLanguage(level: LanguageLevel)
    ensures BytesTypeName(level) != UnicodeTypeName(level)
    ensures level.Python3? ==> StringTypeNames(level) == [UnicodeTypeName(level)]
    ensures level.Python3? ==> ByteStringTypeNames(level) == [BytesTypeName(level)]
    ensures level.Python2? ==> StringTypeNames(level) == [BytesTypeName(level), UnicodeTypeName(level)]
    ensures level.Python2? ==> ByteStringTypeNames(level) == StringTypeNames(level)
    ensures UnicodeTypeName(level) in StringTypeNames(level)
  {
  }
}
