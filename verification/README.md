# Self-contained logic of several IntelliJ platform components

This project models, in Dafny, the pieces of IntelliJ platform code that can be
stated exactly. It proves what each piece promises. The pieces are:

- **Startup loading phases** (`LoadingPhases`, `loading_phase.dfy`). The IDE
  has one current loading phase, taken from an ordered enumeration. It moves
  in two ways:
  - `setCurrentPhase` installs a phase unconditionally and reports a
    regression;
  - `compareAndSet` installs a phase only if the current one is the expected
    one.

  `assertAtLeast` warns once per distinct caller that runs too early. Callers
  are identified by a key built from their stack trace.
- **Window manager frames and dialogs** (`WindowManager`,
  `window_manager.dfy`):
  - the map from project to frame, where the null project holds the root
    frame shown before any project opens;
  - the per-project queues of hidden dialogs that wait for disposal;
  - the search for the only IDE frame;
  - the normalisation of a loaded extended window state;
  - the `long` modification count;
  - the lazily computed alpha-mode answer.
- **Editor mouse-hover popup** (`HoverPopup`, `hover_popup.dfy`):
  - the three-way relation between hover contexts, and what a mouse move does
    with it;
  - the progress token that makes a late background result stale;
  - the popup bridge, which holds callbacks until the popup exists;
  - the size arithmetic of the combined popup layout.
- **Python builtin cache** (`BuiltinCache`, `builtin_cache.dfy`):
  - name lookup in the builtins skeleton, with the exceptions skeleton as
    fallback;
  - the name-to-type cache, emptied whenever the builtins file's modification
    stamp moves;
  - the choice of type names by language level;
  - the skeleton module name.
- **Java highlighting visitor** (`HighlightVisitor`, `highlight_visitor.dfy`):
  - the memoised walk that finds the surrounding constructor;
  - the "error reported for this element" flag;
  - the highlight-type mapping and the end-of-line rule of `reportError`;
  - the rewrite of tooltip colour classes into inline styles;
  - the conflict bookkeeping for single static imports;
  - the per-file cleanup of `analyze`.
- **Data-flow call state** (`DfaCallStates`, `dfa_call_state.dfy`). An
  immutable record with copy-with updaters. Its equality and hash ignore the
  return value.
- **Skeleton generator test harness** (`DirLayout`, `dir_layout.dfy`):
  - `format_dir`, which renders a directory tree as sorted, indented lines;
  - the comparison with an expected layout written in the test (by
    `textwrap.dedent` and `str.strip`);
  - the paths and environment that `check_generator_output` and
    `run_generator` pass to the generator.

`wrappers.dfy` defines the `Option` type that the modules share.

Code that updates fields in place is modelled by a Dafny class whose methods
are proved against specification functions:
- `PhaseTracker`;
- `WindowManagerState`;
- `HoverManager` and `PopupBridge`;
- `PyFile` and `PyBuiltinCache`;
- `HighlightVisitorState`.

Pure code is modelled by datatypes, functions and lemmas. Projects, frames,
dialogs, editors, popups, PSI elements and highlight infos are abstract
identities (natural numbers).

Outside code is replaced by parameters:
- the window system's list of frames and its "active" answers;
- the platform's alpha-mode answer;
- the documentation generator;
- the import resolver;
- the module path that importing a module would report.

## Model

Paths are relative to the repository root:
- `LoadingPhase.java` is `platform/util/src/com/intellij/diagnostic/LoadingPhase.java`;
- the window manager is `platform/platform-impl/src/com/intellij/openapi/wm/impl/WindowManagerImpl.java`;
- the hover popup manager is `platform/lang-impl/src/com/intellij/openapi/editor/EditorMouseHoverPopupManager.java`;
- the builtin cache is `python/python-psi-impl/src/com/jetbrains/python/psi/impl/PyBuiltinCache.java`;
- the highlighting visitor is `java/java-analysis-impl/src/com/intellij/codeInsight/daemon/impl/analysis/HighlightVisitorImpl.java`;
- the call state is `java/java-analysis-impl/src/com/intellij/codeInspection/dataFlow/DfaCallState.java`;
- the generator test is `python/helpers/pycharm_generator_utils/test/test_generation.py`.

| member | source | states |
|---|---|---|
| LoadingPhases.OrdinalIsDeclarationOrder | platform/util/src/com/intellij/diagnostic/LoadingPhase.java:17-25 | Every phase's ordinal is its position in the declaration order. So the ordinals order the phases totally, from BOOTSTRAP to INDEXING_FINISHED. |
| LoadingPhases.OrdinalInjective | platform/util/src/com/intellij/diagnostic/LoadingPhase.java:17-25 | Two phases have the same ordinal exactly when they are the same phase. |
| LoadingPhases.BootstrapAlwaysComplete | platform/util/src/com/intellij/diagnostic/LoadingPhase.java:97-99 | `BOOTSTRAP.isComplete()` holds whatever the current phase is. |
| LoadingPhases.StartupCompleteOnlyAtIndexingFinished | platform/util/src/com/intellij/diagnostic/LoadingPhase.java:93-99 | `isStartupComplete` holds exactly when the current phase is INDEXING_FINISHED. |
| LoadingPhases.InfoLoggedPhases | platform/util/src/com/intellij/diagnostic/LoadingPhase.java:71-75 | Reaching a phase is logged at info level for every phase except BOOTSTRAP, SPLASH and COMPONENT_REGISTERED. |
| LoadingPhases.NoRegressionsKeepCompletion | platform/util/src/com/intellij/diagnostic/LoadingPhase.java:34-40 | Take a run of phase changes in which no change reported an error. Along it the phase never moves back, and a phase that was complete stays complete. |
| LoadingPhases.DistinctTracesShareKey | platform/util/src/com/intellij/diagnostic/LoadingPhase.java:42-61 | Violators are compared by the concatenated class and method names of their frames, with no separator. So two different traces can count as one violator. |
| LoadingPhases.SkipLoadingPhaseIsOff | platform/util/src/com/intellij/diagnostic/LoadingPhase.java:32 | The skip switch parses the literal property name, which is not "true". So the switch is always off. |
| LoadingPhases.PhaseTracker.constructor | platform/util/src/com/intellij/diagnostic/LoadingPhase.java:63 | The current phase starts at BOOTSTRAP, with no violators recorded. |
| LoadingPhases.PhaseTracker.SetCurrentPhase | platform/util/src/com/intellij/diagnostic/LoadingPhase.java:34-40 | The new phase is installed unconditionally. An error is reported exactly when the old ordinal exceeds the new one. The info log follows the `logPhaseSet` threshold. The violators are untouched. |
| LoadingPhases.PhaseTracker.CompareAndSet | platform/util/src/com/intellij/diagnostic/LoadingPhase.java:65-69 | The phase changes exactly when the current phase is the expected one, and only then can anything be logged. Otherwise nothing changes. |
| LoadingPhases.PhaseTracker.AssertAtLeast | platform/util/src/com/intellij/diagnostic/LoadingPhase.java:77-91 | No effect when the phase is already reached. Otherwise the caller's key joins the violator set, and a warning (phase, current phase, new violator count) is given exactly when the key is new. The set grows by one per warning. |
| WindowManager.TryToFindTheOnlyFrame | platform/platform-impl/src/com/intellij/openapi/wm/impl/WindowManagerImpl.java:405-419 | The loop returns a frame exactly when there is exactly one IDE frame among all frames, and then it returns that frame. |
| WindowManager.MoreIdeFramesLater | platform/platform-impl/src/com/intellij/openapi/wm/impl/WindowManagerImpl.java:412-414 | Leaving the loop at the second IDE frame is sound: the frames after it cannot bring the count back to one. |
| WindowManager.ParseJavaInt | platform/platform-impl/src/com/intellij/openapi/wm/impl/WindowManagerImpl.java:632 | A legacy attribute parses only to a value in the 32-bit `int` range. Anything else made of ASCII characters takes the NORMAL default. |
| WindowManager.ParseJavaIntRoundTrip | platform/platform-impl/src/com/intellij/openapi/wm/impl/WindowManagerImpl.java:632 | Every `int` written in decimal (with '-' when negative) parses back to itself. |
| WindowManager.LoadedStateNeverIconified | platform/platform-impl/src/com/intellij/openapi/wm/impl/WindowManagerImpl.java:628-637 | A loaded extended state never has the ICONIFIED bit set, whatever was stored. |
| WindowManager.LegacyAttributeOnlyForNormal | platform/platform-impl/src/com/intellij/openapi/wm/impl/WindowManagerImpl.java:629-634 | The legacy `extended-state` attribute matters only when the stored state is NORMAL. Any other state without the ICONIFIED bit is kept. |
| WindowManager.LegacyMaximizedRestored | platform/platform-impl/src/com/intellij/openapi/wm/impl/WindowManagerImpl.java:629-634 | A NORMAL state with the legacy attribute "6" is restored as MAXIMIZED_BOTH. |
| WindowManager.WrapLong | platform/platform-impl/src/com/intellij/openapi/wm/impl/WindowManagerImpl.java:650 | The `long` sum lies in the 64-bit range and is congruent to the exact sum modulo 2^64. |
| WindowManager.ModificationCountDetectsChange | platform/platform-impl/src/com/intellij/openapi/wm/impl/WindowManagerImpl.java:649-651 | Hold either count fixed: every change of the other changes the sum, overflow included. |
| WindowManager.WindowManagerState.constructor | platform/platform-impl/src/com/intellij/openapi/wm/impl/WindowManagerImpl.java:78-82 | No frame is registered, no dialog is queued and the alpha-mode answer is not yet known. |
| WindowManager.WindowManagerState.ShowFrame | platform/platform-impl/src/com/intellij/openapi/wm/impl/WindowManagerImpl.java:459-464 | Requires that there is no root frame. A new frame becomes the root, and nothing else changes. |
| WindowManager.WindowManagerState.AllocateFrame | platform/platform-impl/src/com/intellij/openapi/wm/impl/WindowManagerImpl.java:492-526 | Requires that the project has no frame. An existing root frame is taken over and removed from the root slot; otherwise a new frame is made. The project then maps to the frame, and the frame carries the project. |
| WindowManager.WindowManagerState.QueueForDisposal | platform/platform-impl/src/com/intellij/openapi/wm/impl/WindowManagerImpl.java:555-557 | The dialog joins the project's queue. A missing queue is created. |
| WindowManager.WindowManagerState.ProceedDialogDisposalQueue | platform/platform-impl/src/com/intellij/openapi/wm/impl/WindowManagerImpl.java:548-553 | The project's whole queue is removed and every dialog in it is disposed. Other projects' queues are untouched. |
| WindowManager.WindowManagerState.HideDialog | platform/platform-impl/src/com/intellij/openapi/wm/impl/WindowManagerImpl.java:304-318 | Without a project, or when the project's frame is active, the dialog is disposed at once. Otherwise it is hidden and queued for its project. |
| WindowManager.ReleaseKeepsRegistry | platform/platform-impl/src/com/intellij/openapi/wm/impl/WindowManagerImpl.java:560-584 | Releasing a frame keeps the frame registry consistent: with other projects registered the frame is disposed, with none it is re-registered as the root frame under the null project. |
| WindowManager.WindowManagerState.ReleaseFrame | platform/platform-impl/src/com/intellij/openapi/wm/impl/WindowManagerImpl.java:560-584 | The project's dialog queue is drained, and the project and its frame part. If no frame is left registered, the frame becomes the root; otherwise it is disposed. |
| WindowManager.WindowManagerState.DisposeRootFrame | platform/platform-impl/src/com/intellij/openapi/wm/impl/WindowManagerImpl.java:586-594 | The root frame is removed and disposed only when it is the map's single entry. Otherwise nothing changes. |
| WindowManager.WindowManagerState.IsAlphaModeSupported | platform/platform-impl/src/com/intellij/openapi/wm/impl/WindowManagerImpl.java:192-197 | The platform answer is taken on the first call and kept. Later calls return the kept answer. |
| WindowManager.OpenAndCloseKeepsRoot | platform/platform-impl/src/com/intellij/openapi/wm/impl/WindowManagerImpl.java:492-584 | Start with only the root frame. Opening a project and releasing its frame again leaves the same root frame, and no frame is disposed. The dialogs queued for that project are disposed and its queue is dropped. No other dialog state changes. |
| WindowManager.AlphaModeAnswerIsStable | platform/platform-impl/src/com/intellij/openapi/wm/impl/WindowManagerImpl.java:192-197 | Two consecutive calls give the same answer, even if the platform's answer changes. The answer is the first platform answer if none was kept before. |
| HoverPopup.CompareToCases | platform/lang-impl/src/com/intellij/openapi/editor/EditorMouseHoverPopupManager.java:368-375 | SAME exactly when both the highlight info and the element agree. SIMILAR exactly when the same non-null info is shown with another element. DIFFERENT otherwise. |
| HoverPopup.CompareToSymmetric | platform/lang-impl/src/com/intellij/openapi/editor/EditorMouseHoverPopupManager.java:368-375 | The relation does not depend on which context is compared with which. |
| HoverPopup.CompareToReflexive | platform/lang-impl/src/com/intellij/openapi/editor/EditorMouseHoverPopupManager.java:368-375 | A context is SAME as itself. |
| HoverPopup.ShowingDelay | platform/lang-impl/src/com/intellij/openapi/editor/EditorMouseHoverPopupManager.java:377-380 | The quick-doc delay applies without a highlight info, and the tooltip delay applies with one. |
| HoverPopup.CreateContext | platform/lang-impl/src/com/intellij/openapi/editor/EditorMouseHoverPopupManager.java:279-300 | No context exactly when there is neither a highlight info (tooltips enabled) nor an element to document (quick doc on, file known, leaf not whitespace or plain text). Otherwise the context holds both, so a returned context always has at least one part. |
| HoverPopup.CalcInfo | platform/lang-impl/src/com/intellij/openapi/editor/EditorMouseHoverPopupManager.java:404-433 | No info exactly when the usable highlight info (one with description and tooltip) and the generated documentation are both missing. Every info built has at least one part. |
| HoverPopup.HoverManager.constructor | platform/lang-impl/src/com/intellij/openapi/editor/EditorMouseHoverPopupManager.java:64-70 | No popup, editor, context or progress at the start. |
| HoverPopup.HoverManager.CloseHint | platform/lang-impl/src/com/intellij/openapi/editor/EditorMouseHoverPopupManager.java:302-310 | The popup, its editor and its context are reset together. |
| HoverPopup.HoverManager.GetCurrentHint | platform/lang-impl/src/com/intellij/openapi/editor/EditorMouseHoverPopupManager.java:316-331 | Returns the popup only if it is still visible. A popup that vanished or was hidden resets the popup, editor and context together. |
| HoverPopup.HoverManager.CancelCurrentProcessing | platform/lang-impl/src/com/intellij/openapi/editor/EditorMouseHoverPopupManager.java:119-125 | The current progress token is forgotten. Nothing else changes. |
| HoverPopup.HoverManager.ScheduleProcessing | platform/lang-impl/src/com/intellij/openapi/editor/EditorMouseHoverPopupManager.java:127-134 | A fresh token becomes the current one and travels with the request. |
| HoverPopup.HoverManager.ApplyResult | platform/lang-impl/src/com/intellij/openapi/editor/EditorMouseHoverPopupManager.java:136-160 | A result is dropped untouched exactly when its token is not current. Otherwise the token is cleared, and exactly one of four things happens. (1) Nothing is shown exactly when there is no info, the editor is not showing, or popups are disabled and showing is not forced. (2) Otherwise the hint is closed exactly when no component was created. (3) Otherwise it is updated in place exactly when an update was asked and a hint is still shown. (4) Otherwise it is replaced by a new popup. In cases (3) and (4) the context becomes the request's. |
| HoverPopup.HoverManager.MouseMoved | platform/lang-impl/src/com/intellij/openapi/editor/EditorMouseHoverPopupManager.java:86-117 | Pending work is always cancelled. An ignored event stops there and leaves the popup, editor and context as they were. A disabled popup, an offset off the text or no context closes the hint. SAME keeps the hint. DIFFERENT (always, when no hint is shown) closes it and schedules a new one. SIMILAR schedules an update of the shown one. |
| HoverPopup.CancelledResultIsStale | platform/lang-impl/src/com/intellij/openapi/editor/EditorMouseHoverPopupManager.java:119-138 | A result computed before a cancellation is dropped when it arrives. |
| HoverPopup.SupersededResultIsStale | platform/lang-impl/src/com/intellij/openapi/editor/EditorMouseHoverPopupManager.java:132-138 | Once a newer request is scheduled, the older request's result is dropped. |
| HoverPopup.PopupBridge.constructor | platform/lang-impl/src/com/intellij/openapi/editor/EditorMouseHoverPopupManager.java:607-609 | No popup, an empty queue and nothing run. |
| HoverPopup.PopupBridge.SetPopup | platform/lang-impl/src/com/intellij/openapi/editor/EditorMouseHoverPopupManager.java:611-616 | Requires an unset popup. Every queued consumer runs once, in the order it was registered, with the popup. The queue is then dropped. |
| HoverPopup.PopupBridge.PerformWhenAvailable | platform/lang-impl/src/com/intellij/openapi/editor/EditorMouseHoverPopupManager.java:623-630 | Before the popup exists the consumer is queued. Afterwards it runs at once with the popup. |
| HoverPopup.PreferredSizeCoversParts | platform/lang-impl/src/com/intellij/openapi/editor/EditorMouseHoverPopupManager.java:671-677 | The preferred width is the larger part width, and the preferred height is the sum of the part heights. The documentation height is taken at that width. |
| HoverPopup.MinimumSizeCoversParts | platform/lang-impl/src/com/intellij/openapi/editor/EditorMouseHoverPopupManager.java:680-684 | The minimum size covers either part's minimum width and stacks the minimum heights. |
| HoverPopup.LayoutTilesParent | platform/lang-impl/src/com/intellij/openapi/editor/EditorMouseHoverPopupManager.java:687-697 | Both parts take the full width, and the documentation sits right below the highlight part. The highlight part gets min(parent height, its preferred height), and the two heights add up to the parent's. |
| HoverPopup.LayoutAtPreferredSize | platform/lang-impl/src/com/intellij/openapi/editor/EditorMouseHoverPopupManager.java:671-697 | Laid out at its own preferred size, the popup gives each part exactly the height it asked for. |
| BuiltinCache.BuiltinsFileName | python/python-psi-impl/src/com/jetbrains/python/psi/impl/PyBuiltinCache.java:139-141 | "__builtin__.py" for Python 2, and "builtins.py" for every other level. |
| BuiltinCache.SkeletonModuleName | python/python-psi-impl/src/com/jetbrains/python/psi/impl/PyBuiltinCache.java:150-153 | The name is cut at its first '.', or kept whole when it has none. The result is a dot-free prefix of the name. |
| BuiltinCache.ModuleNameAtFirstDot | python/python-psi-impl/src/com/jetbrains/python/psi/impl/PyBuiltinCache.java:150-153 | Whatever follows the first dot plays no part. |
| BuiltinCache.GetSkeletonFile | python/python-psi-impl/src/com/jetbrains/python/psi/impl/PyBuiltinCache.java:147-159 | Other SDK types give nothing. For the Python SDK the result is the first element the stripped name resolves to, exactly when that element is a Python file. |
| BuiltinCache.PyBuiltinCache.constructor | python/python-psi-impl/src/com/jetbrains/python/psi/impl/PyBuiltinCache.java:62-74 | The two files are kept, the cache is empty and the stored stamp is -1. |
| BuiltinCache.PyBuiltinCache.GetByName | python/python-psi-impl/src/com/jetbrains/python/psi/impl/PyBuiltinCache.java:175-186 | The builtins file's element if it has one, else the exceptions file's. Nothing exactly when neither file defines the name. |
| BuiltinCache.PyBuiltinCache.GetClass | python/python-psi-impl/src/com/jetbrains/python/psi/impl/PyBuiltinCache.java:188-193 | Only the builtins file is consulted. Nothing when it is absent or lacks the class. |
| BuiltinCache.PyBuiltinCache.GetObjectType | python/python-psi-impl/src/com/jetbrains/python/psi/impl/PyBuiltinCache.java:195-220 | A moved stamp empties the cache, and the stored stamp becomes the file's. The answer always equals a fresh lookup. A found type is cached, a miss never is, and the cache stays consistent. |
| BuiltinCache.PyBuiltinCache.GetStrOrUnicodeType | python/python-psi-impl/src/com/jetbrains/python/psi/impl/PyBuiltinCache.java:294-311 | The union members are the "str" and "unicode" types that exist, in that order. |
| BuiltinCache.EditKeepsCacheValid | python/python-psi-impl/src/com/jetbrains/python/psi/impl/PyBuiltinCache.java:197-203 | After an edit of the builtins file the cache is still consistent, because the moved stamp hides the stale entries. |
| BuiltinCache.RepeatedLookupIsCached | python/python-psi-impl/src/com/jetbrains/python/psi/impl/PyBuiltinCache.java:204-219 | Two lookups in a row give the same answer. A found type is then in the cache. |
| BuiltinCache.DudInstanceKnowsNothing | python/python-psi-impl/src/com/jetbrains/python/psi/impl/PyBuiltinCache.java:165-193 | The fail-fast instance without files finds no name and no class, and is not valid. |
| BuiltinCache.IsBuiltinOnlyInCacheFiles | python/python-psi-impl/src/com/jetbrains/python/psi/impl/PyBuiltinCache.java:333-343 | A target is builtin exactly when it is present and valid and its containing Python file is the builtins or the exceptions file itself. |
| BuiltinCache.StringNamesFollowLanguage | python/python-psi-impl/src/com/jetbrains/python/psi/impl/PyBuiltinCache.java:258-292 | Bytes and text names always differ. On Python 3 a string is "str" and a byte string is "bytes". On Python 2 both are the union of "str" and "unicode". |
| HighlightVisitor.Chain | java/java-analysis-impl/src/com/intellij/codeInsight/daemon/impl/analysis/HighlightVisitorImpl.java:128 | The walk starts at the entry, follows parent links and stops before a file. It never contains a file. |
| HighlightVisitor.FirstConstructor | java/java-analysis-impl/src/com/intellij/codeInsight/daemon/impl/analysis/HighlightVisitorImpl.java:133-136 | The nearest constructor on a walk, or none exactly when the walk holds no constructor. |
| HighlightVisitor.StopIndex | java/java-analysis-impl/src/com/intellij/codeInsight/daemon/impl/analysis/HighlightVisitorImpl.java:128-137 | The first loop stops at the first element that is cached (a cached null included) or a constructor. |
| HighlightVisitor.WalkedPrefixAgrees | java/java-analysis-impl/src/com/intellij/codeInsight/daemon/impl/analysis/HighlightVisitorImpl.java:128-141 | With a consistent cache, the answer read at the stop is the surrounding constructor of the entry and of every element walked up to the stop. |
| HighlightVisitor.ExtendedCacheConsistent | java/java-analysis-impl/src/com/intellij/codeInsight/daemon/impl/analysis/HighlightVisitorImpl.java:138-141 | Caching that answer for the walked elements keeps the cache consistent. |
| HighlightVisitor.HighlightVisitorState.constructor | java/java-analysis-impl/src/com/intellij/codeInsight/daemon/impl/analysis/HighlightVisitorImpl.java:96-106 | Empty cache and import maps, and no error flagged. |
| HighlightVisitor.HighlightVisitorState.WalkToKnownAnswer | java/java-analysis-impl/src/com/intellij/codeInsight/daemon/impl/analysis/HighlightVisitorImpl.java:126-137 | The first loop returns the answer at the stopping element and that element. Without a stop, it runs off the top or reaches the file. |
| HighlightVisitor.HighlightVisitorState.CacheWalk | java/java-analysis-impl/src/com/intellij/codeInsight/daemon/impl/analysis/HighlightVisitorImpl.java:138-141 | The second loop caches the result for every element from the entry up to and including the stopping one. |
| HighlightVisitor.HighlightVisitorState.FindSurroundingConstructor | java/java-analysis-impl/src/com/intellij/codeInsight/daemon/impl/analysis/HighlightVisitorImpl.java:125-143 | The result is the nearest constructor among the entry and its ancestors below the file. The walked elements get it cached, and the cache stays consistent. |
| HighlightVisitor.HighlightVisitorState.Visit | java/java-analysis-impl/src/com/intellij/codeInsight/daemon/impl/analysis/HighlightVisitorImpl.java:170-173 | The error flag is reset before the element is visited. |
| HighlightVisitor.HighlightVisitorState.Add | java/java-analysis-impl/src/com/intellij/codeInsight/daemon/impl/analysis/HighlightVisitorImpl.java:295-304 | A missing builder gives false and changes nothing. Otherwise the created info goes to the holder, whose answer is returned. The flag is raised, never lowered, exactly when the info is at least an error. |
| HighlightVisitor.GuardedRuns | java/java-analysis-impl/src/com/intellij/codeInsight/daemon/impl/analysis/HighlightVisitorImpl.java:314-320 | With an error already flagged, no guarded check runs. Otherwise the checks run up to and including the first that makes an error. |
| HighlightVisitor.HighlightVisitorState.AddGuarded | java/java-analysis-impl/src/com/intellij/codeInsight/daemon/impl/analysis/HighlightVisitorImpl.java:314-320 | The holder receives exactly the infos of the checks that run. The flag ends up raised exactly when it was raised before or some check makes an error. |
| HighlightVisitor.InfoTypeAndFileLevelDetermineKind | java/java-analysis-impl/src/com/intellij/codeInsight/daemon/impl/analysis/HighlightVisitorImpl.java:230-245 | ERROR and FILE_LEVEL_ERROR share the ERROR type, and only the file-level annotation tells them apart. Together, type and annotation determine the kind. |
| HighlightVisitor.IsEndOfLine | java/java-analysis-impl/src/com/intellij/codeInsight/daemon/impl/analysis/HighlightVisitorImpl.java:247-255 | A range is marked end-of-line exactly when it is present and empty and its absolute offset is at or past the end of the document or on a '\n'. |
| HighlightVisitor.WordRun | java/java-analysis-impl/src/com/intellij/codeInsight/daemon/impl/analysis/HighlightVisitorImpl.java:80 | `\w+` is greedy: the run is all word characters and is followed by none. |
| HighlightVisitor.MatchShape | java/java-analysis-impl/src/com/intellij/codeInsight/daemon/impl/analysis/HighlightVisitorImpl.java:80 | A match is the class prefix, a non-empty word and a closing quote. `MatchAt` itself ensures that a match lies within the text. |
| HighlightVisitor.KnownClassBecomesStyle | java/java-analysis-impl/src/com/intellij/codeInsight/daemon/impl/analysis/HighlightVisitorImpl.java:268-281 | A colour class with a known name becomes its inline style. The text after it is rewritten on its own. |
| HighlightVisitor.NoMatchInside | java/java-analysis-impl/src/com/intellij/codeInsight/daemon/impl/analysis/HighlightVisitorImpl.java:80 | No match of the class pattern starts strictly inside another match. The scan therefore never skips the start of a class. |
| HighlightVisitor.CopyBefore | java/java-analysis-impl/src/com/intellij/codeInsight/daemon/impl/analysis/HighlightVisitorImpl.java:268-281 | When no known class starts before position `n`, the rewrite copies the first `n` characters unchanged. This holds even when an unknown class starts before `n` and ends after it. |
| HighlightVisitor.RewriteKeepsTextBeforeClasses | java/java-analysis-impl/src/com/intellij/codeInsight/daemon/impl/analysis/HighlightVisitorImpl.java:268-281 | The text before the first known class is copied unchanged and in order. The rewrite of `u + rest` is `u` followed by the rewrite of `rest` whenever no known class starts inside `u`. Together with `KnownClassBecomesStyle`, this covers the text between and around classes. |
| HighlightVisitor.RewriteKeepsUnknownText | java/java-analysis-impl/src/com/intellij/codeInsight/daemon/impl/analysis/HighlightVisitorImpl.java:268-281 | Text without a known colour class comes out exactly as it went in. |
| HighlightVisitor.PostProcessClasses | java/java-analysis-impl/src/com/intellij/codeInsight/daemon/impl/analysis/HighlightVisitorImpl.java:268-281 | The left-to-right matching loop computes the rewrite with the three tooltip colours. |
| HighlightVisitor.NextPiece | java/java-analysis-impl/src/com/intellij/codeInsight/daemon/impl/analysis/HighlightVisitorImpl.java:268-281 | One step of the matcher appends either the replacement of a class match or the single character at that position. It consumes at least one character, and what it appends is the start of the rewrite from that position. |
| HighlightVisitor.PlainTooltipUnchanged | java/java-analysis-impl/src/com/intellij/codeInsight/daemon/impl/analysis/HighlightVisitorImpl.java:75-80 | A tooltip whose classes are not information, grayed or error is left unchanged. |
| HighlightVisitor.ImportStep | java/java-analysis-impl/src/com/intellij/codeInsight/daemon/impl/analysis/HighlightVisitorImpl.java:694-720 | A class or field result conflicts exactly when the name already maps to another element of its kind. The message is fixed, as an iff, by the prior importer for each of the five conflict messages: none (class only), this reference, or another one. The entry is overwritten with this reference either way. |
| HighlightVisitor.ImportAll | java/java-analysis-impl/src/com/intellij/codeInsight/daemon/impl/analysis/HighlightVisitorImpl.java:691-721 | Processing every result in order gives at most one message per result. |
| HighlightVisitor.LastImportWins | java/java-analysis-impl/src/com/intellij/codeInsight/daemon/impl/analysis/HighlightVisitorImpl.java:705 | The last class among the results owns the class entry, with this reference as importer. |
| HighlightVisitor.ClassesUntouched | java/java-analysis-impl/src/com/intellij/codeInsight/daemon/impl/analysis/HighlightVisitorImpl.java:707-716 | Results without a class leave the class map as it was. |
| HighlightVisitor.OtherNamesUntouched | java/java-analysis-impl/src/com/intellij/codeInsight/daemon/impl/analysis/HighlightVisitorImpl.java:696-715 | Entries for other names are never touched. |
| HighlightVisitor.HighlightVisitorState.VisitImportStaticReference | java/java-analysis-impl/src/com/intellij/codeInsight/daemon/impl/analysis/HighlightVisitorImpl.java:673-722 | No result reports an unresolved symbol, or a pending reference in an incomplete model. Otherwise the loop processes the results in order, as `ImportAll` does. |
| HighlightVisitor.HighlightVisitorState.Analyze | java/java-analysis-impl/src/com/intellij/codeInsight/daemon/impl/analysis/HighlightVisitorImpl.java:176-210 | Whether the pass throws or returns true, every per-file map is cleared afterwards, and the holder, file and collector are reset. |
| DfaCallStates.WithMemoryState | java/java-analysis-impl/src/com/intellij/codeInspection/dataFlow/DfaCallState.java:20-22 | Only the memory state is replaced. |
| DfaCallStates.WithArguments | java/java-analysis-impl/src/com/intellij/codeInspection/dataFlow/DfaCallState.java:24-26 | Only the arguments are replaced. |
| DfaCallStates.WithReturnValue | java/java-analysis-impl/src/com/intellij/codeInspection/dataFlow/DfaCallState.java:28-30 | Only the return value is replaced. |
| DfaCallStates.UpdatersAreIndependent | java/java-analysis-impl/src/com/intellij/codeInspection/dataFlow/DfaCallState.java:20-30 | The updaters commute, the last write of a part wins, and rewriting a part with itself changes nothing. |
| DfaCallStates.Equals | java/java-analysis-impl/src/com/intellij/codeInspection/dataFlow/DfaCallState.java:32-38 | Null and objects of other classes are never equal. A call state is equal exactly when the memory states and the arguments are equal. |
| DfaCallStates.EqualsIsEquivalence | java/java-analysis-impl/src/com/intellij/codeInspection/dataFlow/DfaCallState.java:32-38 | Equality is reflexive, symmetric and transitive. |
| DfaCallStates.ReturnValueIgnoredByEquals | java/java-analysis-impl/src/com/intellij/codeInspection/dataFlow/DfaCallState.java:32-38 | A state equals its copy with any other return value, both ways. |
| DfaCallStates.WrapInt | java/java-analysis-impl/src/com/intellij/codeInspection/dataFlow/DfaCallState.java:42 | Java `int` arithmetic: the value is in range, congruent modulo 2^32, and exact when no overflow happens. |
| DfaCallStates.HashCode | java/java-analysis-impl/src/com/intellij/codeInspection/dataFlow/DfaCallState.java:40-43 | The hash is an `int` congruent to 31 times the memory-state hash plus the arguments' hash. |
| DfaCallStates.HashCodeConsistentWithEquals | java/java-analysis-impl/src/com/intellij/codeInspection/dataFlow/DfaCallState.java:32-43 | Equal call states have equal hashes. |
| DirLayout.StrLeTotal | python/helpers/pycharm_generator_utils/test/test_generation.py:215 | Python's string order is total. |
| DirLayout.StrLeTransitive | python/helpers/pycharm_generator_utils/test/test_generation.py:215 | Python's string order is transitive. |
| DirLayout.StrLeAntisymmetric | python/helpers/pycharm_generator_utils/test/test_generation.py:215 | Python's string order is antisymmetric. |
| DirLayout.SortByName | python/helpers/pycharm_generator_utils/test/test_generation.py:215 | `sorted` gives the same entries, ordered by name. |
| DirLayout.SortedPermutationUnique | python/helpers/pycharm_generator_utils/test/test_generation.py:215 | Entries with distinct names have only one ordering by name. |
| DirLayout.FormatDirCount | python/helpers/pycharm_generator_utils/test/test_generation.py:214-222 | `format_dir` yields exactly one line per entry in the tree, at every depth. |
| DirLayout.ListingOrderIrrelevant | python/helpers/pycharm_generator_utils/test/test_generation.py:215 | The rendering does not depend on the order in which the file system lists a directory. |
| DirLayout.FormatDirShift | python/helpers/pycharm_generator_utils/test/test_generation.py:216-222 | Rendering with extra indentation is the rendering with that indentation in front of every line. This is how a directory's contents sit four spaces deeper. |
| DirLayout.FormatDirFirstLine | python/helpers/pycharm_generator_utils/test/test_generation.py:215-222 | The first line is the first child by name at the indentation, with a '/' appended for a directory. |
| DirLayout.SplitJoin | python/helpers/pycharm_generator_utils/test/test_generation.py:224 | Joining lines with '\n' loses nothing: splitting gives the lines back. |
| DirLayout.Margin | python/helpers/pycharm_generator_utils/test/test_generation.py:225 | `textwrap.dedent` finds no margin exactly when every line is blank. |
| DirLayout.DedentIndentedBlock | python/helpers/pycharm_generator_utils/test/test_generation.py:225 | Dedenting a block indented by a common margin, between an opening newline and a closing margin line, gives the block back. |
| DirLayout.StripLeading | python/helpers/pycharm_generator_utils/test/test_generation.py:225-226 | Only whitespace is removed from the front, and the result starts with none. |
| DirLayout.StripTrailing | python/helpers/pycharm_generator_utils/test/test_generation.py:225-226 | Only whitespace is removed from the end, and the result ends with none. |
| DirLayout.StripPadded | python/helpers/pycharm_generator_utils/test/test_generation.py:225-226 | Whitespace around a text does not change what `strip` leaves of it. |
| DirLayout.FormatDirShowable | python/helpers/pycharm_generator_utils/test/test_generation.py:216-222 | Every rendered line of a tree with showable names is one line holding text. |
| DirLayout.IndentedExpectationMatches | python/helpers/pycharm_generator_utils/test/test_generation.py:213-227 | The layout assertion accepts a non-empty tree's rendering written in the test the usual way: indented by any margin, between an opening newline and a closing margin line. |
| DirLayout.PathJoin | python/helpers/pycharm_generator_utils/test/test_generation.py:205 | POSIX join: the result is absolute exactly when either part is. An absolute second part replaces the first, and the result ends with the second part. |
| DirLayout.ResolveModRoot | python/helpers/pycharm_generator_utils/test/test_generation.py:202-205 | The module root defaults to the test-data directory. An absolute root is kept, and a relative one is joined onto the test-data directory. |
| DirLayout.ResolveModPath | python/helpers/pycharm_generator_utils/test/test_generation.py:207-208 | A given module path is joined onto the root. Otherwise it stays as given. |
| DirLayout.ResolvedPathsAbsolute | python/helpers/pycharm_generator_utils/test/test_generation.py:202-208 | With an absolute test-data directory, the module root and every resolved module path are absolute. |
| DirLayout.ModPathUnderRoot | python/helpers/pycharm_generator_utils/test/test_generation.py:207-208 | A relative module path lands below the root, and an absolute one ignores it. |
| DirLayout.RequiredGenKeyword | python/helpers/pycharm_generator_utils/test/test_generation.py:198-200 | `setdefault` supplies the default required-version file only when the flag is set and no value was passed. An explicit value, even None, is kept. |
| DirLayout.RunGenerator | python/helpers/pycharm_generator_utils/test/test_generation.py:35-55 | The environment always sets the test-mode flag to 'True'. The version is the given one or '1000.0'. The hash flag is set exactly when fake hashes are asked for. The required-version file is set exactly when one is given. The sys.path entry and module path fall back to their defaults. |
| DirLayout.CheckGeneratorOutput | python/helpers/pycharm_generator_utils/test/test_generation.py:197-211 | The generator runs with the resolved root on sys.path and the module path joined onto it. The required-version file is the default when none was passed and a custom one is asked for. An explicit non-empty value is kept as given. Otherwise it is absent. The test-mode flag and the generator version (the given one, or "1000.0") are always set. The hash flag is set exactly when fake hashes are asked for. No other variable is set. |

## Left out

- Logging output, `AtomicReference` atomicity, `synchronized` blocks, the `Alarm` and `invokeLater` threading and the progress indicators' own state: each operation is modelled as one sequential step. The hover manager's background computation is split into `ScheduleProcessing` and `ApplyResult`.
- Swing, AWT and native work is not modelled: frame bounds, visibility, listeners, menus, the status bar, popup creation and positioning, tooltip rendering, `DocumentationComponent`, float-based scaling and the alpha-mode ratio. Components are reduced to the integers the layout reads.
- XML (de)serialisation in `loadState` and the desktop layout are not modelled. Only the extended-state rule is modelled, applied to an already deserialised value.
- `WindowManager.ParseJavaInt`: only the ASCII digits '0' to '9' are modelled. `Integer.parseInt` also accepts every other Unicode decimal digit (for example '٦' or '６'), which the model treats as a format error and so as the NORMAL default.
- `WindowManager.WindowManagerState.ShowFrame`, `WindowManager.WindowManagerState.AllocateFrame`: the `LOG.assertTrue` checks become preconditions. The log-and-continue path after a failed check is not modelled.
- `WindowManager.WindowManagerState.ReleaseFrame`: the frame must carry a project (the source asserts it). `WindowManager.WindowManagerState.HideDialog` requires a frame for a non-null project, since the source would dereference null otherwise.
- `getFrame`, `getRootFrame` and `getAllProjectFrames` are plain map reads (`GetFrame`, `GetRootFrame`, `AllProjectFrames`). They are used in the contracts above and have none of their own.
- `HoverPopup.HoverManager.MouseMoved`: the registry switch that disables new hover popups is not modelled. `ignoreEvent`, `isPopupDisabled`, the target offset and `createContext` reach it as parameters.
- Weak references in the hover context and popup are treated as never cleared. A cleared one is modelled only through the "hint visible" parameter.
- `showInfoTooltip` and `PopupBridge.performOnCancel` are not modelled. They only attach Swing listeners or force a highlight-only context.
- `CombinedPopupLayout` sizes use unbounded integers, so Java `int` overflow of the summed heights is not modelled.
- The SDK and project-model lookups (`getInstance`, `findSdkForFile`, `findSdkForNonModuleFile`) are not modelled, and neither is import resolution beyond a given result list.
- `PyClassTypeImpl.assertValid` is not modelled. `isBuiltin`'s `assertValid` call is taken to return normally.
- `BuiltinCache.PyBuiltinCache.GetStrOrUnicodeType`: the conversion between class and instance types, and the `PyUnionType` construction, are not modelled. The result is the list of union members.
- The fixed-name getters (`getListType`, `getDictType`, …) and the level-dependent getters are `GetObjectType` on the names that `StringNamesFollowLanguage` states. They have no members of their own.
- The PSI rule checks of the highlighter (`HighlightUtil`, `GenericsHighlightUtil`, resolve, type inference, the unused-imports pass, quick fixes) are not modelled. They are abstract builders. The description and tooltip text of `reportError` is not modelled.
- `HighlightVisitor.HighlightVisitorState.VisitImportStaticReference`: the messages are returned rather than passed to `add`. The follow-up reference checks after line 723 are not modelled.
- `areElementsEquivalent` is modelled as identity of the resolved elements.
- `HighlightVisitor.HighlightVisitorState.Analyze`: the highlighting pass is modelled as a series of static-import visits that may throw after a given count. The other per-file maps are modelled as one set.
- `DfaCallStates.HashCode`: the component hashes are parameters. Their consistency with the components' own `equals` is assumed to be value equality.
- Running the generator is not modelled: the subprocess, the `os.environ` and `sys.path` changes, the argument list, and the module path that importing reports (a parameter). The directory comparison context is not modelled either.
- Paths follow POSIX `os.path` only.
- `textwrap.dedent`: the general algorithm is modelled. Its agreement with a layout is proved only for the usual shape of an expected layout: an opening newline, lines indented by one margin, and a closing margin line.
- `DirLayout.IndentedExpectationMatches`: file names are assumed to be non-empty, on one line, and not to start with a space or tab (`Showable`). Names outside that set are not covered.
- `textwrap.dedent` treats only spaces and tabs as indentation, as Python does. Other whitespace counts as text for the margin.
- Directory listings are finite trees: symbolic links and cycles are not modelled.
- The generator tests driven by `test_utils.py` and the binary builder `compile_binaries.py` are not part of this model.
