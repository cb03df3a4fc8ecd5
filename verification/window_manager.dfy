/**
 * The window manager's bookkeeping: which frame belongs to which project
 * (the null project holding the "root" frame shown before any project
 * opens), the per-project queues of hidden dialogs awaiting disposal, the
 * search for the only IDE frame, the normalisation of a loaded extended
 * window state and the persisted-state modification count.
 * Projects, frames and dialogs are abstract identities.
 */
module WindowManager {
  import opened Wrappers

  type ProjectId = nat
  type FrameId = nat
  type DialogId = nat

  /** A top-level window as the window system lists it. */
  datatype Window = Window(frame: FrameId, isIdeFrame: bool)

  /** The IDE frames among `all`, in the window system's order. */
  function IdeFrames(all: seq<Window>): (r: seq<FrameId>)
    ensures |r| <= |all|
  {
    if all == [] then []
    else IdeFrames(all[..|all| - 1]) + (if all[|all| - 1].isIdeFrame then [all[|all| - 1].frame] else [])
  }

  /**
   * `tryToFindTheOnlyFrame`: scans all windows keeping a single candidate and
   * gives up as soon as a second IDE frame appears. The result is the only
   * IDE frame if there is exactly one, and none otherwise.
   */
  method TryToFindTheOnlyFrame(all: seq<Window>) returns (candidate: Option<FrameId>)
    ensures candidate.Some? <==> |IdeFrames(all)| == 1
    ensures candidate.Some? ==> candidate.value == IdeFrames(all)[0]
  {
    candidate := None;
    var i := 0;
    while i < |all|
      invariant 0 <= i <= |all|
      invariant |IdeFrames(all[..i])| <= 1
      invariant candidate.Some? <==> |IdeFrames(all[..i])| == 1
      invariant candidate.Some? ==> candidate.value == IdeFrames(all[..i])[0]
    {
      assert all[..i + 1][..i] == all[..i];
      if all[i].isIdeFrame {
        if candidate == None {
          candidate := Some(all[i].frame);
        } else {
          candidate := None;
          MoreIdeFramesLater(all, i + 1);
          return;
        }
      }
      i := i + 1;
    }
    assert all[..i] == all;
  }

  /** Once two IDE frames have been seen, no suffix brings the count back to one. */
  lemma {:induction false} MoreIdeFramesLater(all: seq<Window>, k: nat)
    requires k <= |all|
    ensures |IdeFrames(all[..k])| <= |IdeFrames(all)|
    decreases |all| - k
  {
    if k < |all| {
      MoreIdeFramesLater(all, k + 1);
      assert all[..k + 1][..k] == all[..k];
    } else {
      assert all[..k] == all;
    }
  }

  // ---- extended state read back from the persisted frame element ----

  /** `java.awt.Frame` state constants. */
  const Normal: int := 0
  const Iconified: int := 1
  const MaximizedBoth: int := 6

  const IntMin: int := -0x8000_0000
  const IntMax: int := 0x7fff_ffff

  predicate IsAsciiDigit(c: char)
  {
    '0' <= c <= '9'
  }

  predicate AllDigits(s: string)
  {
    forall i :: 0 <= i < |s| ==> IsAsciiDigit(s[i])
  }

  function DigitValue(c: char): nat
    requires IsAsciiDigit(c)
  {
    c as int - '0' as int
  }

  /** The value of a string of decimal digits, most significant first. */
  function DecimalValue(s: string): nat
    requires AllDigits(s)
  {
    if s == [] then 0 else DecimalValue(s[..|s| - 1]) * 10 + DigitValue(s[|s| - 1])
  }

  /**
   * `Integer.parseInt` restricted to ASCII digits: an optional sign and at
   * least one digit '0'..'9', in the 32-bit range; anything else is a format
   * error (None).
   */
  function ParseJavaInt(s: string): (r: Option<int>)
    ensures r.Some? ==> IntMin <= r.value <= IntMax
  {
    var negative := |s| > 0 && s[0] == '-';
    var digits := if |s| > 0 && (s[0] == '-' || s[0] == '+') then s[1..] else s;
    if digits == [] || !AllDigits(digits) then None
    else
      var magnitude := DecimalValue(digits);
      var v: int := if negative then -(magnitude as int) else magnitude;
      if IntMin <= v <= IntMax then Some(v) else None
  }

  /** `StringUtil.parseInt(s, default)`: the parsed value, or the default on a format error. */
  function ParseIntOr(s: string, default: int): int
  {
    match ParseJavaInt(s)
    case Some(v) => v
    case None => default
  }

  /** Decimal rendering of a natural number, the inverse of `DecimalValue`. */
  function DecimalString(n: nat): (s: string)
    ensures |s| > 0 && AllDigits(s)
  {
    if n < 10 then ["0123456789"[n]] else DecimalString(n / 10) + ["0123456789"[n % 10]]
  }

  lemma {:induction false} DecimalRoundTrip(n: nat)
    ensures DecimalValue(DecimalString(n)) == n
  {
    if n >= 10 {
      DecimalRoundTrip(n / 10);
      var s := DecimalString(n);
      assert s[..|s| - 1] == DecimalString(n / 10);
    }
  }

  /** Unsigned digits parse to their value when it fits in 32 bits. */
  lemma ParseUnsigned(d: string, m: nat)
    requires |d| > 0 && AllDigits(d) && DecimalValue(d) == m
    ensures ParseJavaInt(d) == if m <= IntMax then Some(m as int) else None
  {
    assert IsAsciiDigit(d[0]);
  }

  /** A '-' followed by digits parses to the negated value when it fits in 32 bits. */
  lemma ParseNegative(d: string, m: nat)
    requires |d| > 0 && AllDigits(d) && DecimalValue(d) == m
    ensures ParseJavaInt("-" + d) == if IntMin <= -(m as int) then Some(-(m as int)) else None
  {
    assert ("-" + d)[1..] == d;
  }

  /** Every 32-bit value written as a plain decimal (with '-' when negative) parses back to itself. */
  lemma ParseJavaIntRoundTrip(v: int)
    requires IntMin <= v <= IntMax
    ensures ParseJavaInt(if v < 0 then "-" + DecimalString(-v) else DecimalString(v)) == Some(v)
  {
    var m: nat := if v < 0 then -v else v;
    var d := DecimalString(m);
    DecimalRoundTrip(m);
    if v < 0 {
      ParseNegative(d, m);
    } else {
      ParseUnsigned(d, m);
    }
  }

  /**
   * The ICONIFIED bit of a 32-bit state: `(state & ICONIFIED) > 0`. In two's
   * complement the lowest bit is the state modulo 2 (Euclidean), for
   * negative values too.
   */
  predicate IconifiedBitSet(state: int)
  {
    state % 2 == 1
  }

  /**
   * The extended state adopted by `loadState`: a NORMAL value is replaced by
   * the legacy `extended-state` attribute when present (NORMAL if it does not
   * parse), and a state with the ICONIFIED bit set becomes NORMAL.
   */
  function LoadedExtendedState(deserialized: int, legacyAttribute: Option<string>): int
  {
    var s := if deserialized == Normal && legacyAttribute.Some?
             then ParseIntOr(legacyAttribute.value, Normal)
             else deserialized;
    if IconifiedBitSet(s) then Normal else s
  }

  /** A frame is never restored minimised, whatever was stored. */
  lemma LoadedStateNeverIconified(deserialized: int, legacyAttribute: Option<string>)
    ensures !IconifiedBitSet(LoadedExtendedState(deserialized, legacyAttribute))
  {
  }

  /** The legacy attribute is consulted only when the deserialized state is NORMAL. */
  lemma LegacyAttributeOnlyForNormal(deserialized: int, a: Option<string>, b: Option<string>)
    requires deserialized != Normal
    ensures LoadedExtendedState(deserialized, a) == LoadedExtendedState(deserialized, b)
    ensures !IconifiedBitSet(deserialized) ==> LoadedExtendedState(deserialized, a) == deserialized
  {
  }

  /** A legacy maximised state written as a decimal is restored as maximised. */
  lemma LegacyMaximizedRestored()
    ensures LoadedExtendedState(Normal, Some("6")) == MaximizedBoth
  {
    assert DecimalValue("6") == 6 by {
      assert "6"[..0] == [];
    }
  }

  // ---- persisted-state modification count ----

  const LongModulus: int := 0x1_0000_0000_0000_0000
  const LongMin: int := -0x8000_0000_0000_0000
  const LongMax: int := 0x7fff_ffff_ffff_ffff

  /** Two's complement 64-bit wrap-around of a `long` sum. */
  function WrapLong(x: int): (r: int)
    ensures LongMin <= r <= LongMax
    ensures (r - x) % LongModulus == 0
  {
    (x - LongMin) % LongModulus + LongMin
  }

  /** `getStateModificationCount`: the frame-info count plus the layout count, as a `long`. */
  function StateModificationCount(frameInfoCount: int, layoutCount: int): int
  {
    WrapLong(frameInfoCount + layoutCount)
  }

  lemma SameResidueInRange(x: int, y: int)
    requires LongMin <= x <= LongMax && LongMin <= y <= LongMax
    requires (x - y) % LongModulus == 0
    ensures x == y
  {
  }

  /**
   * The sum works as a modification tracker: with one count fixed, a change
   * of the other always changes the total, overflow included.
   */
  lemma {:induction false} ModificationCountDetectsChange(a: int, a': int, b: int)
    requires LongMin <= a <= LongMax && LongMin <= a' <= LongMax
    requires a != a'
    ensures StateModificationCount(a, b) != StateModificationCount(a', b)
    ensures StateModificationCount(b, a) != StateModificationCount(b, a')
  {
    var r := StateModificationCount(a, b);
    var r' := StateModificationCount(a', b);
    if r == r' {
      assert (r - (a + b)) % LongModulus == 0;
      assert (r - (a' + b)) % LongModulus == 0;
      ModDifference(r - (a' + b), r - (a + b));
      assert ((r - (a' + b)) - (r - (a + b))) == a - a';
      SameResidueInRange(a, a');
    }
    assert StateModificationCount(b, a) == r && StateModificationCount(b, a') == r';
  }

  lemma {:induction false} ModDifference(x: int, y: int)
    requires x % LongModulus == 0 && y % LongModulus == 0
    ensures (x - y) % LongModulus == 0
  {
    var qx := x / LongModulus;
    var qy := y / LongModulus;
    assert x == qx * LongModulus;
    assert y == qy * LongModulus;
    assert x - y == (qx - qy) * LongModulus;
  }

  // ---- the manager state ----

  /** What `hideDialog` did with the dialog. */
  datatype HideOutcome = DisposedNoProject | DisposedFrameActive | Queued

  /**
   * A frame registered under a project carries that project, a frame that
   * carries a project is registered under it, and the root frame carries none;
   * registered frames are live and every frame identity is below `next`.
   */
  ghost predicate Registry(projectToFrame: map<Option<ProjectId>, FrameId>, frameProject: map<FrameId, ProjectId>,
                           disposedFrames: set<FrameId>, next: FrameId)
  {
    && (forall k | k in projectToFrame :: projectToFrame[k] < next && projectToFrame[k] !in disposedFrames)
    && (forall f | f in disposedFrames :: f < next)
    && (forall p: ProjectId | Some(p) in projectToFrame ::
          projectToFrame[Some(p)] in frameProject && frameProject[projectToFrame[Some(p)]] == p)
    && (forall f | f in frameProject ::
          Some(frameProject[f]) in projectToFrame && projectToFrame[Some(frameProject[f])] == f)
    && (None in projectToFrame ==> projectToFrame[None] !in frameProject)
  }

  /**
   * Releasing a frame keeps the registry consistent: with other projects
   * left, the frame is disposed; with none left, it becomes the root frame.
   */
  lemma ReleaseKeepsRegistry(projectToFrame: map<Option<ProjectId>, FrameId>, frameProject: map<FrameId, ProjectId>,
                             disposedFrames: set<FrameId>, next: FrameId, frame: FrameId)
    requires Registry(projectToFrame, frameProject, disposedFrames, next) && frame in frameProject
    ensures var rest := projectToFrame - {Some(frameProject[frame])};
            var released := frameProject - {frame};
            if rest == map[] then Registry(rest[None := frame], released, disposedFrames, next)
            else Registry(rest, released, disposedFrames + {frame}, next)
  {
    var p := frameProject[frame];
    assert forall k | k in projectToFrame && k != Some(p) :: projectToFrame[k] != frame;
  }

  class WindowManagerState {
    /** `myProjectToFrame`; the key None is the null project, holding the root frame. */
    var projectToFrame: map<Option<ProjectId>, FrameId>
    /** The project each frame currently carries (`frame.getProject()`), for frames that have one. */
    var frameProject: map<FrameId, ProjectId>
    /** `myDialogsToDispose`. */
    var dialogsToDispose: map<ProjectId, set<DialogId>>
    var disposedFrames: set<FrameId>
    var disposedDialogs: set<DialogId>
    var hiddenDialogs: set<DialogId>
    /** Frames below this identity have been created; the next `new IdeFrameImpl()` gets it. */
    var nextFrame: FrameId
    /** `myAlphaModeSupported`, computed on first use. */
    var alphaModeSupported: Option<bool>

    /** The frame registry is consistent: see `Registry`. */
    ghost predicate Valid()
      reads this
    {
      Registry(projectToFrame, frameProject, disposedFrames, nextFrame)
    }

    constructor ()
      ensures Valid()
      ensures projectToFrame == map[] && dialogsToDispose == map[] && frameProject == map[]
      ensures disposedFrames == {} && disposedDialogs == {} && hiddenDialogs == {}
      ensures alphaModeSupported == None
    {
      projectToFrame := map[];
      frameProject := map[];
      dialogsToDispose := map[];
      disposedFrames := {};
      disposedDialogs := {};
      hiddenDialogs := {};
      nextFrame := 0;
      alphaModeSupported := None;
    }

    /** `getFrame(project)`: the frame registered for the project, if any. */
    function GetFrame(project: Option<ProjectId>): Option<FrameId>
      reads this
    {
      if project in projectToFrame then Some(projectToFrame[project]) else None
    }

    /** `getRootFrame()`: the frame under the null key. */
    function GetRootFrame(): Option<FrameId>
      reads this
    {
      GetFrame(None)
    }

    /** Every frame a project (or the root) holds, once each. */
    function AllProjectFrames(): set<FrameId>
      reads this
    {
      projectToFrame.Values
    }

    /** `showFrame`: there must be no root frame yet; a new frame becomes the root. */
    method ShowFrame() returns (frame: FrameId)
      requires Valid()
      requires None !in projectToFrame
      modifies this
      ensures Valid()
      ensures frame == old(nextFrame) && frame !in old(AllProjectFrames())
      ensures projectToFrame == old(projectToFrame)[None := frame]
      ensures GetRootFrame() == Some(frame)
      ensures frameProject == old(frameProject) && dialogsToDispose == old(dialogsToDispose)
      ensures disposedFrames == old(disposedFrames) && disposedDialogs == old(disposedDialogs)
      ensures hiddenDialogs == old(hiddenDialogs) && alphaModeSupported == old(alphaModeSupported)
    {
      frame := nextFrame;
      nextFrame := nextFrame + 1;
      projectToFrame := projectToFrame[None := frame];
    }

    /**
     * `allocateFrame`: the project must not have a frame yet. The root frame
     * is taken over if there is one, otherwise a new frame is created; the
     * project then maps to it.
     */
    method AllocateFrame(project: ProjectId) returns (frame: FrameId, isNewFrame: bool)
      requires Valid()
      requires Some(project) !in projectToFrame
      modifies this
      ensures Valid()
      ensures isNewFrame == (None !in old(projectToFrame))
      ensures !isNewFrame ==> frame == old(projectToFrame)[None]
      ensures isNewFrame ==> frame == old(nextFrame) && frame !in old(AllProjectFrames())
      ensures projectToFrame == (old(projectToFrame) - {None})[Some(project) := frame]
      ensures GetFrame(Some(project)) == Some(frame) && GetRootFrame() == None
      ensures frameProject == old(frameProject)[frame := project]
      ensures dialogsToDispose == old(dialogsToDispose)
      ensures disposedFrames == old(disposedFrames) && disposedDialogs == old(disposedDialogs)
      ensures hiddenDialogs == old(hiddenDialogs) && alphaModeSupported == old(alphaModeSupported)
    {
      isNewFrame := None !in projectToFrame;
      if isNewFrame {
        frame := nextFrame;
        nextFrame := nextFrame + 1;
      } else {
        frame := projectToFrame[None];
        projectToFrame := projectToFrame - {None};
      }
      frameProject := frameProject[frame := project];
      projectToFrame := projectToFrame[Some(project) := frame];
    }

    /** `queueForDisposal`: adds the dialog to the project's queue, creating it on demand. */
    method QueueForDisposal(dialog: DialogId, project: ProjectId)
      modifies this
      ensures dialogsToDispose ==
                old(dialogsToDispose)[project := (if project in old(dialogsToDispose) then old(dialogsToDispose)[project] else {}) + {dialog}]
      ensures projectToFrame == old(projectToFrame) && frameProject == old(frameProject) && nextFrame == old(nextFrame)
      ensures disposedFrames == old(disposedFrames) && disposedDialogs == old(disposedDialogs)
      ensures hiddenDialogs == old(hiddenDialogs) && alphaModeSupported == old(alphaModeSupported)
    {
      var queue := if project in dialogsToDispose then dialogsToDispose[project] else {};
      dialogsToDispose := dialogsToDispose[project := queue + {dialog}];
    }

    /** `proceedDialogDisposalQueue`: removes the project's whole queue and disposes every dialog in it. */
    method ProceedDialogDisposalQueue(project: ProjectId)
      modifies this
      ensures dialogsToDispose == old(dialogsToDispose) - {project}
      ensures disposedDialogs == old(disposedDialogs) + (if project in old(dialogsToDispose) then old(dialogsToDispose)[project] else {})
      ensures projectToFrame == old(projectToFrame) && frameProject == old(frameProject) && nextFrame == old(nextFrame)
      ensures disposedFrames == old(disposedFrames)
      ensures hiddenDialogs == old(hiddenDialogs) && alphaModeSupported == old(alphaModeSupported)
    {
      if project in dialogsToDispose {
        var dialogs := dialogsToDispose[project];
        dialogsToDispose := dialogsToDispose - {project};
        disposedDialogs := disposedDialogs + dialogs;
      }
    }

    /**
     * `hideDialog`: without a project, or when the project's frame is active,
     * the dialog is disposed at once; otherwise it is hidden and queued.
     * `activeFrames` is what the window system reports as active.
     */
    method HideDialog(dialog: DialogId, project: Option<ProjectId>, activeFrames: set<FrameId>)
      returns (outcome: HideOutcome)
      requires project.Some? ==> project in projectToFrame
      modifies this
      ensures outcome == (if project.None? then DisposedNoProject
                          else if old(projectToFrame)[project] in activeFrames then DisposedFrameActive
                          else Queued)
      ensures outcome != Queued ==>
                disposedDialogs == old(disposedDialogs) + {dialog} &&
                dialogsToDispose == old(dialogsToDispose) && hiddenDialogs == old(hiddenDialogs)
      ensures outcome == Queued ==>
                var p := project.value;
                disposedDialogs == old(disposedDialogs) && hiddenDialogs == old(hiddenDialogs) + {dialog} &&
                dialogsToDispose == old(dialogsToDispose)[p := (if p in old(dialogsToDispose) then old(dialogsToDispose)[p] else {}) + {dialog}]
      ensures projectToFrame == old(projectToFrame) && frameProject == old(frameProject) && nextFrame == old(nextFrame)
      ensures disposedFrames == old(disposedFrames) && alphaModeSupported == old(alphaModeSupported)
    {
      if project.None? {
        disposedDialogs := disposedDialogs + {dialog};
        outcome := DisposedNoProject;
      } else if projectToFrame[project] in activeFrames {
        disposedDialogs := disposedDialogs + {dialog};
        outcome := DisposedFrameActive;
      } else {
        QueueForDisposal(dialog, project.value);
        hiddenDialogs := hiddenDialogs + {dialog};
        outcome := Queued;
      }
    }

    /**
     * `releaseFrame`: the frame's project drains its dialog queue and loses
     * its frame. If no other frame is left, this frame becomes the root;
     * otherwise it is disposed.
     */
    method ReleaseFrame(frame: FrameId)
      requires Valid()
      requires frame in frameProject
      modifies this
      ensures Valid()
      ensures var p := old(frameProject)[frame];
              var rest := old(projectToFrame) - {Some(p)};
              && frameProject == old(frameProject) - {frame}
              && (rest == map[] ==> projectToFrame == map[None := frame] && disposedFrames == old(disposedFrames))
              && (rest != map[] ==> projectToFrame == rest && disposedFrames == old(disposedFrames) + {frame})
              && dialogsToDispose == old(dialogsToDispose) - {p}
              && disposedDialogs == old(disposedDialogs) + (if p in old(dialogsToDispose) then old(dialogsToDispose)[p] else {})
      ensures hiddenDialogs == old(hiddenDialogs) && alphaModeSupported == old(alphaModeSupported)
    {
      var project := frameProject[frame];
      ReleaseKeepsRegistry(projectToFrame, frameProject, disposedFrames, nextFrame, frame);
      ProceedDialogDisposalQueue(project);
      frameProject := frameProject - {frame};
      projectToFrame := projectToFrame - {Some(project)};
      if projectToFrame == map[] {
        projectToFrame := projectToFrame[None := frame];
      } else {
        disposedFrames := disposedFrames + {frame};
      }
    }

    /** `disposeRootFrame`: removes and disposes the root frame only when it is the single entry. */
    method DisposeRootFrame()
      requires Valid()
      modifies this
      ensures Valid()
      ensures if |old(projectToFrame)| == 1 && None in old(projectToFrame)
              then projectToFrame == map[] && disposedFrames == old(disposedFrames) + {old(projectToFrame)[None]}
              else projectToFrame == old(projectToFrame) && disposedFrames == old(disposedFrames)
      ensures frameProject == old(frameProject) && dialogsToDispose == old(dialogsToDispose)
      ensures disposedDialogs == old(disposedDialogs) && hiddenDialogs == old(hiddenDialogs)
      ensures alphaModeSupported == old(alphaModeSupported)
    {
      if |projectToFrame| == 1 {
        if None in projectToFrame {
          assert projectToFrame.Keys == {None} by {
            var others := projectToFrame.Keys - {None};
            assert |others| == |projectToFrame.Keys| - 1 == 0;
            assert others == {};
          }
          var root := projectToFrame[None];
          projectToFrame := projectToFrame - {None};
          disposedFrames := disposedFrames + {root};
        }
      }
    }

    /** `isAlphaModeSupported`: the platform answer `computed` is taken on first use and kept. */
    method IsAlphaModeSupported(computed: bool) returns (supported: bool)
      modifies this
      ensures old(alphaModeSupported).Some? ==> supported == old(alphaModeSupported).value
      ensures old(alphaModeSupported).None? ==> supported == computed
      ensures alphaModeSupported == Some(supported)
      ensures projectToFrame == old(projectToFrame) && frameProject == old(frameProject) && nextFrame == old(nextFrame)
      ensures dialogsToDispose == old(dialogsToDispose) && disposedFrames == old(disposedFrames)
      ensures disposedDialogs == old(disposedDialogs) && hiddenDialogs == old(hiddenDialogs)
    {
      if alphaModeSupported.None? {
        alphaModeSupported := Some(computed);
      }
      supported := alphaModeSupported.value;
    }
  }

  /**
   * Opening a project and closing it again, with no other project open,
   * leaves the same frame behind as the root.
   */
  method OpenAndCloseKeepsRoot(wm: WindowManagerState, project: ProjectId)
    requires wm.Valid()
    requires wm.projectToFrame.Keys == {None}
    modifies wm
    ensures wm.Valid()
    ensures wm.projectToFrame == old(wm.projectToFrame)
    ensures wm.disposedFrames == old(wm.disposedFrames)
    ensures wm.dialogsToDispose == old(wm.dialogsToDispose) - {project}
    ensures wm.disposedDialogs == old(wm.disposedDialogs) +
              (if project in old(wm.dialogsToDispose) then old(wm.dialogsToDispose)[project] else {})
    ensures wm.hiddenDialogs == old(wm.hiddenDialogs)
  {
    var root := wm.projectToFrame[None];
    var frame, isNew := wm.AllocateFrame(project);
    assert frame == root;
    wm.ReleaseFrame(frame);
    assert wm.projectToFrame == map[None := root];
  }

  /** After the first call, the alpha-mode answer no longer depends on the platform query. */
  method AlphaModeAnswerIsStable(wm: WindowManagerState, first: bool, second: bool) returns (a: bool, b: bool)
    modifies wm
    ensures a == b
    ensures old(wm.alphaModeSupported).None? ==> a == first
  {
    a := wm.IsAlphaModeSupported(first);
    b := wm.IsAlphaModeSupported(second);
  }
}
