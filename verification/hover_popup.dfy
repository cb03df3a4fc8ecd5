/**
 * The decision logic of the editor's mouse-hover popup: how a new hover
 * context relates to the one on screen, what a mouse move does with that
 * relation, how a late background result is recognised as stale, the
 * bridge that hands the popup to callbacks registered before it existed,
 * and the arithmetic that stacks the highlighting tooltip above the quick
 * documentation. Editors, popups, highlight infos and PSI elements are
 * abstract identities; Swing, timers and threads are not modelled.
 */
module HoverPopup {
  import opened Wrappers

  type InfoId = nat
  type ElementId = nat
  type EditorId = nat
  type PopupId = nat
  type ConsumerId = nat

  // ---- the hover context ----

  /** `Context`: the hovered offset, the highlight info there and the element to document. */
  datatype Context = Context(targetOffset: int, highlightInfo: Option<InfoId>, elementForQuickDoc: Option<ElementId>)

  datatype Relation = Same | Similar | Different

  /** `Context.compareTo`: how a new context relates to the one on screen (absent: nothing on screen). */
  function CompareTo(c: Context, other: Option<Context>): Relation
  {
    if other.None? then Different
    else if c.highlightInfo != other.value.highlightInfo then Different
    else if c.elementForQuickDoc == other.value.elementForQuickDoc then Same
    else if c.highlightInfo.None? then Different
    else Similar
  }

  /**
   * The three outcomes spelled out: SAME when both parts agree; SIMILAR when
   * the same highlight info is shown with another element to document;
   * DIFFERENT otherwise. The offset plays no part.
   */
  lemma CompareToCases(c: Context, o: Context)
    ensures CompareTo(c, Some(o)) == Same <==>
              c.highlightInfo == o.highlightInfo && c.elementForQuickDoc == o.elementForQuickDoc
    ensures CompareTo(c, Some(o)) == Similar <==>
              c.highlightInfo == o.highlightInfo && c.highlightInfo.Some? && c.elementForQuickDoc != o.elementForQuickDoc
    ensures CompareTo(c, Some(o)) == Different <==>
              c.highlightInfo != o.highlightInfo || (c.highlightInfo.None? && c.elementForQuickDoc != o.elementForQuickDoc)
  {
  }

  lemma CompareToSymmetric(c: Context, o: Context)
    ensures CompareTo(c, Some(o)) == CompareTo(o, Some(c))
  {
  }

  lemma CompareToReflexive(c: Context)
    ensures CompareTo(c, Some(c)) == Same
  {
  }

  /** `getShowingDelay`: the quick-doc delay without a highlight info, the tooltip delay with one. */
  function ShowingDelay(c: Context, quickDocDelay: int, tooltipDelay: int): (r: int)
    ensures c.highlightInfo.None? ==> r == quickDocDelay
    ensures c.highlightInfo.Some? ==> r == tooltipDelay
  {
    if c.highlightInfo.None? then quickDocDelay else tooltipDelay
  }

  /** The PSI leaf found at the hovered offset. */
  datatype Leaf = Leaf(element: ElementId, isWhitespaceOrPlainText: bool)

  /**
   * `createContext`: the highlight info (unless editor tooltips are
   * disabled) and the element to document (if quick doc on hover is on, the
   * file is known and the leaf is not whitespace or plain text); no context
   * when both are missing.
   */
  function CreateContext(offset: int, tooltipsDisabled: bool, highlightAtOffset: Option<InfoId>,
                         quickDocOnHover: bool, leafAtOffset: Option<Leaf>): (r: Option<Context>)
    ensures var info := if tooltipsDisabled then None else highlightAtOffset;
            var element := if quickDocOnHover && leafAtOffset.Some? && !leafAtOffset.value.isWhitespaceOrPlainText
                           then Some(leafAtOffset.value.element) else None;
            && (r.None? <==> info.None? && element.None?)
            && (r.Some? ==> r.value == Context(offset, info, element))
    ensures r.Some? ==> r.value.highlightInfo.Some? || r.value.elementForQuickDoc.Some?
  {
    var info := if tooltipsDisabled then None else highlightAtOffset;
    var element := if quickDocOnHover && leafAtOffset.Some? && !leafAtOffset.value.isWhitespaceOrPlainText
                   then Some(leafAtOffset.value.element) else None;
    if info.None? && element.None? then None else Some(Context(offset, info, element))
  }

  /** `Info`: what a popup shows; the source asserts that at least one part is present. */
  datatype Info = Info(highlightInfo: Option<InfoId>, quickDocMessage: Option<string>)

  predicate WellFormedInfo(i: Info)
  {
    i.highlightInfo.Some? || i.quickDocMessage.Some?
  }

  /**
   * `calcInfo`: a highlight info without description or tooltip is dropped;
   * the documentation generated for the element (if the context has one) is
   * the message; no info when both are missing.
   */
  function CalcInfo(c: Context, infoHasDescriptionAndTooltip: bool, generatedDoc: Option<string>): (r: Option<Info>)
    ensures r.Some? ==> WellFormedInfo(r.value)
    ensures r.None? <==> (c.highlightInfo.None? || !infoHasDescriptionAndTooltip) &&
                         (c.elementForQuickDoc.None? || generatedDoc.None?)
  {
    var info := if c.highlightInfo.Some? && infoHasDescriptionAndTooltip then c.highlightInfo else None;
    var message := if c.elementForQuickDoc.Some? then generatedDoc else None;
    if info.None? && message.None? then None else Some(Info(info, message))
  }

  // ---- the manager's state machine ----

  /** The work `scheduleProcessing` hands to the background: its progress token and its arguments. */
  datatype Request = Request(token: nat, editor: EditorId, context: Context, updateExistingPopup: bool, forceShowing: bool)

  /** What a mouse move did. */
  datatype MoveOutcome = Ignored | Closed | Kept | Scheduled(request: Request)

  /** What became of a background result once back on the UI thread. */
  datatype ApplyOutcome = Stale | NotShown | ClosedNoComponent | Updated | Shown(popup: PopupId)

  /** The relation `mouseMoved` acts on: DIFFERENT whenever no hint is shown. */
  function MoveRelation(hintShown: bool, c: Context, shown: Option<Context>): Relation
  {
    if hintShown then CompareTo(c, shown) else Different
  }

  class HoverManager {
    var popup: Option<PopupId>
    var currentEditor: Option<EditorId>
    var context: Option<Context>
    /** `myCurrentProgress`: the token of the one background computation whose result may still be used. */
    var currentProgress: Option<nat>
    /** Tokens below this one have been handed out. */
    var nextToken: nat
    /** Popups below this identity have been created. */
    var nextPopup: PopupId

    /** The popup, its editor and its context are present together or absent together. */
    ghost predicate Valid()
      reads this
    {
      && popup.Some? == currentEditor.Some?
      && popup.Some? == context.Some?
      && (currentProgress.Some? ==> currentProgress.value < nextToken)
      && (popup.Some? ==> popup.value < nextPopup)
    }

    constructor ()
      ensures Valid()
      ensures popup == None && currentEditor == None && context == None && currentProgress == None
    {
      popup, currentEditor, context := None, None, None;
      currentProgress := None;
      nextToken, nextPopup := 0, 0;
    }

    /** `closeHint`: the popup, its editor and its context are reset together. */
    method CloseHint()
      modifies this
      ensures popup == None && currentEditor == None && context == None
      ensures currentProgress == old(currentProgress) && nextToken == old(nextToken) && nextPopup == old(nextPopup)
    {
      popup, currentEditor, context := None, None, None;
    }

    /**
     * `getCurrentHint`: the popup if it is still there and visible; a popup
     * that vanished or was hidden behind the manager's back resets the
     * popup, editor and context, as `closeHint` does.
     */
    method GetCurrentHint(hintVisible: bool) returns (hint: Option<PopupId>)
      modifies this
      ensures hint == (if hintVisible then old(popup) else None)
      ensures if hint.Some? || old(popup).None?
              then popup == old(popup) && currentEditor == old(currentEditor) && context == old(context)
              else popup == None && currentEditor == None && context == None
      ensures currentProgress == old(currentProgress) && nextToken == old(nextToken) && nextPopup == old(nextPopup)
    {
      if popup.None? {
        return None;
      }
      if !hintVisible {
        popup, currentEditor, context := None, None, None;
        return None;
      }
      hint := popup;
    }

    /** `cancelCurrentProcessing`: forgets the current token, so every earlier result is stale. */
    method CancelCurrentProcessing()
      modifies this
      ensures currentProgress == None
      ensures popup == old(popup) && currentEditor == old(currentEditor) && context == old(context)
      ensures nextToken == old(nextToken) && nextPopup == old(nextPopup)
    {
      currentProgress := None;
    }

    /** `scheduleProcessing`: a fresh token becomes the current one and travels with the request. */
    method ScheduleProcessing(editor: EditorId, c: Context, updateExistingPopup: bool, forceShowing: bool)
      returns (request: Request)
      requires Valid()
      modifies this
      ensures Valid()
      ensures request == Request(old(nextToken), editor, c, updateExistingPopup, forceShowing)
      ensures currentProgress == Some(request.token) && nextToken == old(nextToken) + 1
      ensures popup == old(popup) && currentEditor == old(currentEditor) && context == old(context)
      ensures nextPopup == old(nextPopup)
    {
      request := Request(nextToken, editor, c, updateExistingPopup, forceShowing);
      currentProgress := Some(nextToken);
      nextToken := nextToken + 1;
    }

    /**
     * The UI-thread half of `scheduleProcessing`: a result whose token is no
     * longer current is dropped untouched. Otherwise the token is cleared and,
     * when there is something to show and showing is allowed, the popup is
     * closed (no component), updated in place (SIMILAR and still shown) or
     * replaced by a new one; the context becomes the request's.
     */
    method ApplyResult(request: Request, info: Option<Info>, editorShowing: bool, popupDisabled: bool,
                       componentCreated: bool, hintVisible: bool) returns (outcome: ApplyOutcome)
      requires Valid()
      modifies this
      ensures Valid()
      ensures outcome == Stale <==> old(currentProgress) != Some(request.token)
      ensures outcome == Stale ==>
                popup == old(popup) && currentEditor == old(currentEditor) && context == old(context) &&
                currentProgress == old(currentProgress)
      ensures outcome != Stale ==> currentProgress == None
      ensures outcome == NotShown <==>
                old(currentProgress) == Some(request.token) &&
                !(info.Some? && editorShowing && (request.forceShowing || !popupDisabled))
      ensures outcome == ClosedNoComponent <==>
                old(currentProgress) == Some(request.token) &&
                info.Some? && editorShowing && (request.forceShowing || !popupDisabled) && !componentCreated
      ensures outcome == Updated <==>
                old(currentProgress) == Some(request.token) &&
                info.Some? && editorShowing && (request.forceShowing || !popupDisabled) && componentCreated &&
                request.updateExistingPopup && hintVisible && old(popup).Some?
      ensures outcome == NotShown ==>
                old(currentProgress) == Some(request.token) &&
                !(info.Some? && editorShowing && (request.forceShowing || !popupDisabled)) &&
                popup == old(popup) && currentEditor == old(currentEditor) && context == old(context)
      ensures outcome == ClosedNoComponent ==> !componentCreated && popup == None && context == None
      ensures outcome == Updated ==>
                componentCreated && request.updateExistingPopup && hintVisible &&
                popup == old(popup) && popup.Some? && currentEditor == old(currentEditor) &&
                context == Some(request.context)
      ensures outcome.Shown? ==>
                componentCreated && outcome.popup == old(nextPopup) &&
                popup == Some(outcome.popup) && currentEditor == Some(request.editor) &&
                context == Some(request.context)
      ensures nextToken == old(nextToken)
    {
      if currentProgress != Some(request.token) {
        return Stale;
      }
      currentProgress := None;
      if !(info.Some? && editorShowing && (request.forceShowing || !popupDisabled)) {
        return NotShown;
      }
      if !componentCreated {
        CloseHint();
        return ClosedNoComponent;
      }
      var shown := None;
      if request.updateExistingPopup {
        shown := GetCurrentHint(hintVisible);
      }
      if shown.Some? {
        context := Some(request.context);
        outcome := Updated;
      } else {
        CloseHint();
        var hint := nextPopup;
        nextPopup := nextPopup + 1;
        popup, currentEditor := Some(hint), Some(request.editor);
        context := Some(request.context);
        outcome := Shown(hint);
      }
    }

    /**
     * `mouseMoved`: pending work is cancelled first; an ignored event stops
     * there; a disabled popup, an offset off the text or an empty context
     * closes the hint; otherwise SAME keeps the hint, DIFFERENT closes it and
     * schedules a new one, and SIMILAR schedules an update of the shown one.
     * `newContext` is what `createContext` gave for the hovered offset.
     */
    method MouseMoved(editor: EditorId, ignoreEvent: bool, popupDisabled: bool, targetOffset: int,
                      newContext: Option<Context>, hintVisible: bool) returns (outcome: MoveOutcome)
      requires Valid()
      modifies this
      ensures Valid()
      ensures outcome.Scheduled? ==> currentProgress == Some(outcome.request.token)
      ensures !outcome.Scheduled? ==> currentProgress == None
      ensures outcome == Ignored <==> ignoreEvent
      ensures outcome == Ignored ==> popup == old(popup) && currentEditor == old(currentEditor) && context == old(context)
      ensures outcome == Closed <==> !ignoreEvent && (popupDisabled || targetOffset < 0 || newContext.None?)
      ensures outcome == Closed ==> popup == None && currentEditor == None && context == None
      ensures outcome == Kept ==>
                hintVisible && old(popup).Some? && CompareTo(newContext.value, old(context)) == Same &&
                popup == old(popup) && currentEditor == old(currentEditor) && context == old(context)
      ensures outcome.Scheduled? ==>
                var relation := MoveRelation(hintVisible && old(popup).Some?, newContext.value, old(context));
                && relation != Same
                && outcome.request == Request(old(nextToken), editor, newContext.value, relation == Similar, false)
                && (relation == Different ==> popup == None && currentEditor == None && context == None)
                && (relation == Similar ==> popup == old(popup) && currentEditor == old(currentEditor) && context == old(context))
    {
      CancelCurrentProcessing();
      if ignoreEvent {
        return Ignored;
      }
      if popupDisabled || targetOffset < 0 || newContext.None? {
        CloseHint();
        return Closed;
      }
      var c := newContext.value;
      var shown := GetCurrentHint(hintVisible);
      var relation := if shown.Some? then CompareTo(c, context) else Different;
      if relation == Same {
        return Kept;
      } else if relation == Different {
        CloseHint();
      }
      var request := ScheduleProcessing(editor, c, relation == Similar, false);
      outcome := Scheduled(request);
    }
  }

  /** A result computed before `cancelCurrentProcessing` is dropped when it arrives. */
  method CancelledResultIsStale(m: HoverManager, editor: EditorId, c: Context, info: Option<Info>)
    returns (outcome: ApplyOutcome)
    requires m.Valid()
    modifies m
    ensures outcome == Stale
  {
    var request := m.ScheduleProcessing(editor, c, false, false);
    m.CancelCurrentProcessing();
    outcome := m.ApplyResult(request, info, true, false, true, true);
  }

  /** Of two requests, the older one's result is dropped once the newer one is scheduled. */
  method SupersededResultIsStale(m: HoverManager, editor: EditorId, c1: Context, c2: Context, info: Option<Info>)
    returns (outcome: ApplyOutcome)
    requires m.Valid()
    modifies m
    ensures outcome == Stale
  {
    var first := m.ScheduleProcessing(editor, c1, false, false);
    var second := m.ScheduleProcessing(editor, c2, false, false);
    outcome := m.ApplyResult(first, info, true, false, true, true);
  }

  // ---- the popup bridge ----

  /** The calls made to consumers: each consumer with the popup it was given. */
  function Deliveries(consumers: seq<ConsumerId>, p: PopupId): (r: seq<(ConsumerId, PopupId)>)
    ensures |r| == |consumers|
    ensures forall i :: 0 <= i < |r| ==> r[i] == (consumers[i], p)
  {
    if consumers == [] then [] else Deliveries(consumers[..|consumers| - 1], p) + [(consumers[|consumers| - 1], p)]
  }

  /**
   * `PopupBridge`: callbacks that need the popup are queued until it exists
   * and run as soon as it is set; afterwards they run at once. The queue is
   * dropped (null) once the popup is set.
   */
  class PopupBridge {
    var popup: Option<PopupId>
    var consumers: Option<seq<ConsumerId>>
    /** The consumer calls made so far, in order. */
    var delivered: seq<(ConsumerId, PopupId)>
    /** Every consumer ever registered, in registration order. */
    ghost var registered: seq<ConsumerId>

    /**
     * Before the popup is set nothing has run and the queue holds every
     * registration; afterwards every registered consumer has run exactly
     * once, in registration order, with the popup.
     */
    ghost predicate Valid()
      reads this
    {
      && (popup.None? ==> consumers == Some(registered) && delivered == [])
      && (popup.Some? ==> consumers == None && delivered == Deliveries(registered, popup.value))
    }

    constructor ()
      ensures Valid() && popup == None && registered == []
    {
      popup := None;
      consumers := Some([]);
      delivered := [];
      registered := [];
    }

    function GetPopup(): Option<PopupId>
      reads this
    {
      popup
    }

    /** `setPopup`: may be called once; runs the queued consumers in order. */
    method SetPopup(p: PopupId)
      requires Valid() && popup.None?
      modifies this
      ensures Valid()
      ensures popup == Some(p) && registered == old(registered)
      ensures delivered == Deliveries(old(registered), p)
    {
      var queue := consumers.value;
      popup := Some(p);
      var i := 0;
      while i < |queue|
        invariant 0 <= i <= |queue|
        invariant popup == Some(p) && registered == old(registered) && queue == registered
        invariant consumers == old(consumers)
        invariant delivered == Deliveries(queue[..i], p)
      {
        assert queue[..i + 1][..i] == queue[..i];
        delivered := delivered + [(queue[i], p)];
        i := i + 1;
      }
      assert queue[..i] == queue;
      consumers := None;
    }

    /** `performWhenAvailable`: queues the consumer before the popup exists, runs it at once afterwards. */
    method PerformWhenAvailable(c: ConsumerId)
      requires Valid()
      modifies this
      ensures Valid()
      ensures registered == old(registered) + [c] && popup == old(popup)
      ensures old(popup).None? ==> delivered == [] && consumers == Some(old(consumers).value + [c])
      ensures old(popup).Some? ==> delivered == old(delivered) + [(c, old(popup).value)]
    {
      registered := registered + [c];
      if popup.None? {
        consumers := Some(consumers.value + [c]);
      } else {
        delivered := delivered + [(c, popup.value)];
        assert registered[..|registered| - 1] == old(registered);
      }
    }
  }

  // ---- stacking the two parts of a combined popup ----

  datatype Dim = Dim(width: int, height: int)
  datatype Rect = Rect(x: int, y: int, width: int, height: int)

  /** The quick-doc component's preferred width and its preferred height at a given width. */
  datatype QuickDocSize = QuickDocSize(preferredWidth: int, heightAt: int -> int)

  function Max(a: int, b: int): int { if a >= b then a else b }
  function Min(a: int, b: int): int { if a <= b then a else b }

  /** `preferredLayoutSize`: the wider of the two, and the heights stacked; an absent part counts as zero. */
  function PreferredLayoutSize(highlight: Option<Dim>, quickDoc: Option<QuickDocSize>): (r: Dim)
  {
    var d1 := if highlight.Some? then highlight.value else Dim(0, 0);
    var w2 := if quickDoc.Some? then quickDoc.value.preferredWidth else 0;
    var width := Max(d1.width, w2);
    var h2 := if quickDoc.Some? then quickDoc.value.heightAt(width) else 0;
    Dim(width, d1.height + h2)
  }

  /** `minimumLayoutSize`: the same stacking applied to minimum sizes. */
  function MinimumLayoutSize(highlight: Option<Dim>, quickDoc: Option<Dim>): (r: Dim)
  {
    var d1 := if highlight.Some? then highlight.value else Dim(0, 0);
    var d2 := if quickDoc.Some? then quickDoc.value else Dim(0, 0);
    Dim(Max(d1.width, d2.width), d1.height + d2.height)
  }

  /**
   * `layoutContainer`: the highlight part goes on top at full width with its
   * preferred height capped by the parent; the quick doc takes the rest.
   */
  function LayoutContainer(parent: Dim, highlightPreferredHeight: Option<int>, hasQuickDoc: bool): (r: (Option<Rect>, Option<Rect>))
  {
    var h1 := if highlightPreferredHeight.Some? then Min(parent.height, highlightPreferredHeight.value) else 0;
    (if highlightPreferredHeight.Some? then Some(Rect(0, 0, parent.width, h1)) else None,
     if hasQuickDoc then Some(Rect(0, h1, parent.width, parent.height - h1)) else None)
  }

  /** The preferred size is wide enough for either part and exactly as tall as both. */
  lemma PreferredSizeCoversParts(highlight: Option<Dim>, quickDoc: Option<QuickDocSize>)
    ensures var r := PreferredLayoutSize(highlight, quickDoc);
            && (highlight.Some? ==> r.width >= highlight.value.width)
            && (quickDoc.Some? ==> r.width >= quickDoc.value.preferredWidth)
            && (r.width == 0 || (highlight.Some? && r.width == highlight.value.width) ||
                (quickDoc.Some? && r.width == quickDoc.value.preferredWidth))
            && r.height == (if highlight.Some? then highlight.value.height else 0) +
                           (if quickDoc.Some? then quickDoc.value.heightAt(r.width) else 0)
  {
  }

  /** The minimum size likewise covers either part's minimum width and stacks the minimum heights. */
  lemma MinimumSizeCoversParts(highlight: Option<Dim>, quickDoc: Option<Dim>)
    ensures var r := MinimumLayoutSize(highlight, quickDoc);
            && (highlight.Some? ==> r.width >= highlight.value.width)
            && (quickDoc.Some? ==> r.width >= quickDoc.value.width)
            && (highlight.Some? && quickDoc.Some? ==> r.height == highlight.value.height + quickDoc.value.height)
  {
  }

  /**
   * The two parts tile the parent: both at full width, the quick doc right
   * below the highlight part, their heights adding up to the parent's.
   */
  lemma LayoutTilesParent(parent: Dim, h: int)
    ensures var (r1, r2) := LayoutContainer(parent, Some(h), true);
            && r1.Some? && r2.Some?
            && r1.value.x == 0 && r1.value.y == 0 && r2.value.x == 0
            && r1.value.width == parent.width && r2.value.width == parent.width
            && r2.value.y == r1.value.height
            && r1.value.height + r2.value.height == parent.height
            && r1.value.height <= h && r1.value.height <= parent.height
  {
  }

  /**
   * Laid out at its own preferred size, the combined popup gives each part
   * exactly the height it asked for.
   */
  lemma LayoutAtPreferredSize(d1: Dim, q: QuickDocSize)
    requires q.heightAt(Max(d1.width, q.preferredWidth)) >= 0
    ensures var parent := PreferredLayoutSize(Some(d1), Some(q));
            var (r1, r2) := LayoutContainer(parent, Some(d1.height), true);
            && r1 == Some(Rect(0, 0, parent.width, d1.height))
            && r2 == Some(Rect(0, d1.height, parent.width, q.heightAt(parent.width)))
  {
  }
}
