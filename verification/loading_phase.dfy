/**
 * The IDE startup phase: a single current phase drawn from an ordered
 * enumeration, moved by an unconditional set that reports regressions and by
 * a compare-and-set, plus a warning that fires once per distinct caller
 * (identified by its stack trace) when code runs before the phase it needs.
 */
module LoadingPhases {
  import opened Wrappers

  /** The phases in declaration order; `Ordinal` is that order. */
  datatype Phase =
    | Bootstrap
    | Splash
    | ComponentRegistered
    | ConfigurationStoreInitialized
    | ComponentLoaded
    | FrameShown
    | ProjectOpened
    | IndexingFinished

  function Ordinal(p: Phase): nat
  {
    match p
    case Bootstrap => 0
    case Splash => 1
    case ComponentRegistered => 2
    case ConfigurationStoreInitialized => 3
    case ComponentLoaded => 4
    case FrameShown => 5
    case ProjectOpened => 6
    case IndexingFinished => 7
  }

  /** The phases listed in declaration order. */
  const AllPhases: seq<Phase> :=
    [Bootstrap, Splash, ComponentRegistered, ConfigurationStoreInitialized,
     ComponentLoaded, FrameShown, ProjectOpened, IndexingFinished]

  /** The declaration order is a strict total order: every phase sits at its own ordinal. */
  lemma OrdinalIsDeclarationOrder(p: Phase)
    ensures Ordinal(p) < |AllPhases| && AllPhases[Ordinal(p)] == p
  {
  }

  lemma OrdinalInjective(p: Phase, q: Phase)
    ensures Ordinal(p) == Ordinal(q) <==> p == q
  {
  }

  /** `phase.isComplete()` once the current phase is `current`. */
  predicate Complete(current: Phase, phase: Phase)
  {
    Ordinal(current) >= Ordinal(phase)
  }

  lemma BootstrapAlwaysComplete(current: Phase)
    ensures Complete(current, Bootstrap)
  {
  }

  /** Startup is complete exactly in the last phase. */
  lemma StartupCompleteOnlyAtIndexingFinished(current: Phase)
    ensures Complete(current, IndexingFinished) <==> current == IndexingFinished
  {
  }

  /** `setCurrentPhase` reports an error exactly when the new phase is earlier than the old one. */
  predicate IsRegression(old_: Phase, new_: Phase)
  {
    Ordinal(old_) > Ordinal(new_)
  }

  /** Reaching a phase is logged at info level from CONFIGURATION_STORE_INITIALIZED on. */
  predicate InfoLogged(p: Phase)
  {
    Ordinal(p) >= Ordinal(ConfigurationStoreInitialized)
  }

  lemma InfoLoggedPhases(p: Phase)
    ensures !InfoLogged(p) <==> p == Bootstrap || p == Splash || p == ComponentRegistered
  {
  }

  /** The phase in force after installing every phase of `sets` in turn, starting at `start`. */
  function Last(start: Phase, sets: seq<Phase>): Phase
  {
    if sets == [] then start else sets[|sets| - 1]
  }

  /** No step of the run made `setCurrentPhase` report an error. */
  predicate NoRegressions(start: Phase, sets: seq<Phase>)
  {
    forall i :: 0 <= i < |sets| ==> !IsRegression(Last(start, sets[..i]), sets[i])
  }

  /**
   * The monotonicity story: along a run in which no regression was reported,
   * the current phase never moves back, so a phase once complete stays complete.
   */
  lemma {:induction false} NoRegressionsKeepCompletion(start: Phase, sets: seq<Phase>, p: Phase)
    requires NoRegressions(start, sets)
    requires Complete(start, p)
    ensures Complete(Last(start, sets), p)
    ensures Ordinal(start) <= Ordinal(Last(start, sets))
  {
    if sets != [] {
      var init := sets[..|sets| - 1];
      assert NoRegressions(start, init) by {
        forall i | 0 <= i < |init|
          ensures !IsRegression(Last(start, init[..i]), init[i])
        {
          assert init[..i] == sets[..i];
        }
      }
      NoRegressionsKeepCompletion(start, init, p);
      assert sets[..|sets| - 1] == init;
      assert !IsRegression(Last(start, init), sets[|sets| - 1]);
    }
  }

  /** A stack frame, as far as the violator set looks at it. */
  datatype StackFrame = StackFrame(className: string, methodName: string)

  /**
   * Violators are identified by the class and method names of their stack
   * frames, all concatenated; two traces with the same key are one violator.
   */
  function TraceKey(trace: seq<StackFrame>): string
  {
    if trace == [] then [] else TraceKey(trace[..|trace| - 1]) + trace[|trace| - 1].className + trace[|trace| - 1].methodName
  }

  /** Because names are concatenated without a separator, distinct traces can share a key. */
  lemma DistinctTracesShareKey()
    ensures var t1 := [StackFrame("a.B", "cd")];
            var t2 := [StackFrame("a.Bc", "d")];
            t1 != t2 && TraceKey(t1) == TraceKey(t2)
  {
    var t1 := [StackFrame("a.B", "cd")];
    var t2 := [StackFrame("a.Bc", "d")];
    assert t1[0].className != t2[0].className;
    assert TraceKey(t1) == "a.B" + "cd";
    assert TraceKey(t2) == "a.Bc" + "d";
  }

  /** ASCII lower-casing, the part of `equalsIgnoreCase` the model needs. */
  function LowerAscii(c: char): char
  {
    if 'A' <= c <= 'Z' then (c as int + 32) as char else c
  }

  /** `Boolean.parseBoolean`: true exactly for "true" in any letter case. */
  predicate ParseBoolean(s: string)
  {
    |s| == 4 && forall i :: 0 <= i < 4 ==> LowerAscii(s[i]) == "true"[i]
  }

  /** The skip switch parses a fixed literal, not the property it names. */
  const SkipLoadingPhase: bool := ParseBoolean("idea.skip.loading.phase")

  lemma SkipLoadingPhaseIsOff()
    ensures !SkipLoadingPhase
  {
  }

  /** The warning `assertAtLeast` logs: the phase asked for, the current one and the violator count. */
  datatype Warning = Warning(required: Phase, current: Phase, violatorCount: nat)

  /** The static state: the current phase and the set of violator keys seen so far. */
  class PhaseTracker {
    var current: Phase
    var violators: set<string>

    constructor ()
      ensures current == Bootstrap && violators == {}
    {
      current := Bootstrap;
      violators := {};
    }

    /** `phase.isComplete()`. */
    predicate IsComplete(phase: Phase)
      reads this
    {
      Complete(current, phase)
    }

    predicate IsStartupComplete()
      reads this
    {
      IsComplete(IndexingFinished)
    }

    /** Installs `phase` unconditionally; an error is reported iff the phase moves back. */
    method SetCurrentPhase(phase: Phase) returns (errorReported: bool, infoLogged: bool)
      modifies this
      ensures current == phase && violators == old(violators)
      ensures errorReported == IsRegression(old(current), phase)
      ensures infoLogged == InfoLogged(phase)
    {
      var previous := current;
      current := phase;
      errorReported := Ordinal(previous) > Ordinal(phase);
      infoLogged := Ordinal(phase) >= Ordinal(ConfigurationStoreInitialized);
    }

    /** Installs `phase` only if the current phase is `expected`; only then is anything logged. */
    method CompareAndSet(expected: Phase, phase: Phase) returns (swapped: bool, infoLogged: bool)
      modifies this
      ensures swapped == (old(current) == expected)
      ensures current == (if swapped then phase else old(current))
      ensures violators == old(violators)
      ensures infoLogged == (swapped && InfoLogged(phase))
    {
      swapped := current == expected;
      infoLogged := false;
      if swapped {
        current := phase;
        infoLogged := Ordinal(phase) >= Ordinal(ConfigurationStoreInitialized);
      }
    }

    /**
     * Warns when called before `phase`, but only the first time a caller
     * with this trace key does so; the violator set grows by one per warning.
     */
    method AssertAtLeast(phase: Phase, trace: seq<StackFrame>) returns (warning: Option<Warning>)
      modifies this
      ensures current == old(current)
      ensures SkipLoadingPhase || Complete(old(current), phase) ==>
                violators == old(violators) && warning == None
      ensures !SkipLoadingPhase && !Complete(old(current), phase) ==>
                violators == old(violators) + {TraceKey(trace)} &&
                (warning.Some? <==> TraceKey(trace) !in old(violators))
      ensures warning.Some? ==> warning.value == Warning(phase, current, |violators|)
      ensures |violators| == |old(violators)| + (if warning.Some? then 1 else 0)
    {
      warning := None;
      if SkipLoadingPhase {
        return;
      }
      if Ordinal(current) >= Ordinal(phase) {
        return;
      }
      var key := TraceKey(trace);
      if key in violators {
        return;
      }
      violators := violators + {key};
      warning := Some(Warning(phase, current, |violators|));
    }
  }
}
