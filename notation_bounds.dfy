/**
 * The layout engine of the interpreter (NotationBoundsManager): where a new
 * lifeline, execution specification or fragment goes, how ancestor executions
 * grow, and how the views below an insertion point move down.
 *
 * The computations that only build a rectangle are functions of the
 * compartment; the operations that change rectangles in place are methods of
 * `NotationBoundsManager`, which holds the compartment it reaches through the
 * notation manager.
 */
module NotationBounds {
  import opened Wrappers
  import opened Graph
  import opened Notation

  /** Top of an execution with neither sibling nor parent, and of one whose parent has no start view. */
  const DefaultExecY := 30
  /** Vertical gap below the start view of the left sibling or the parent. */
  const ExecSpacing := 30
  const StartHeight := 50
  const EndHeight := 40
  /** An end view sits this far below the computed top. */
  const EndInset := 5
  /** A self call is indented this far right of its left sibling's start view. */
  const SelfIndent := 7
  /** Half the width of an execution view, taken off the lifeline's centre. */
  const ExecHalfWidth := 8

  // ---------------------------------------------------------------------------
  // Rectangles of the execution views found for a node.

  /** The rectangle of the start view found for node `j`. */
  function StartBounds(c: Compartment, t: Tree, j: nat): (r: Outcome<Option<Bounds>>)
    requires WellFormed(t) && j < |t|
    ensures r.NullPointer? <==> ExecutionStart(c, t, j).NullPointer?
    ensures r == Ok(None) <==> ExecutionStart(c, t, j) == Ok(None)
    ensures r.Ok? && r.value.Some? ==>
              exists loc :: ExecutionStart(c, t, j) == Ok(Some(loc)) && r.value.value == ChildBounds(c, loc)
  {
    match ExecutionStart(c, t, j)
    case NullPointer => NullPointer
    case Ok(None) => Ok(None)
    case Ok(Some(loc)) => Ok(Some(ChildBounds(c, loc)))
  }

  /** The rectangle of the end view found for node `j`. */
  function EndBounds(c: Compartment, t: Tree, j: nat): (r: Option<Bounds>)
    requires WellFormed(t) && j < |t|
    ensures r.None? <==> ExecutionEnd(c, t, j).None?
    ensures r.Some? ==> exists loc :: ExecutionEnd(c, t, j) == Some(loc) && r.value == ChildBounds(c, loc)
  {
    match ExecutionEnd(c, t, j)
    case None => None
    case Some(loc) => Some(ChildBounds(c, loc))
  }

  // ---------------------------------------------------------------------------
  // A new execution specification.

  /**
   * X of a new execution centred on a lifeline: the node's own lifeline for an
   * end, the parent's for a start; half its width (rounded toward zero), less
   * half an execution's width except for the end of a self call.
   */
  function LifelineCentreX(c: Compartment, t: Tree, i: nat, isEnd: bool): (r: Outcome<int>)
    requires WellFormed(t) && i < |t|
    ensures r.Ok? <==> (isEnd || t[i].parent.Some?) &&
                       LifelineViewIndex(c, t[if isEnd then i else t[i].parent.value].name).Some?
  {
    var owner := if isEnd then Some(i) else t[i].parent;
    if owner.None? then NullPointer
    else
      match LifelineViewIndex(c, t[owner.value].name)
      case None => NullPointer
      case Some(l) =>
        var half := JavaHalf(c[l].bounds.width);
        Ok(if IsSelf(t, i) && isEnd then half else half - ExecHalfWidth)
  }

  /** X of the start (`!isEnd`) or end (`isEnd`) execution view of a new call node. */
  function ActionExecutionPositionX(c: Compartment, t: Tree, i: nat, isEnd: bool, hasSibling: bool): (r: Outcome<int>)
    requires WellFormed(t) && i < |t|
    requires hasSibling == t[i].leftSibling.Some?
    ensures !hasSibling ==> r == LifelineCentreX(c, t, i, isEnd)
    ensures hasSibling && (IsSelf(t, i) || !isEnd) ==>
              (r.Ok? <==> StartBounds(c, t, t[i].leftSibling.value).Ok? &&
                          StartBounds(c, t, t[i].leftSibling.value).value.Some?)
    ensures hasSibling && !IsSelf(t, i) && isEnd ==>
              (r.Ok? <==> EndBounds(c, t, t[i].leftSibling.value).Some? || LifelineCentreX(c, t, i, isEnd).Ok?)
  {
    if hasSibling then
      var s := t[i].leftSibling.value;
      if IsSelf(t, i) then
        match StartBounds(c, t, s)
        case Ok(Some(b)) => Ok(b.x + SelfIndent)
        case _ => NullPointer
      else if isEnd then
        match EndBounds(c, t, s)
        case Some(b) => Ok(b.x)
        case None => LifelineCentreX(c, t, i, isEnd)
      else
        match StartBounds(c, t, s)
        case Ok(Some(b)) => Ok(b.x)
        case _ => NullPointer
    else
      LifelineCentreX(c, t, i, isEnd)
  }

  /** Top of a new execution that has a left sibling or a parent. */
  function NewExecY(c: Compartment, t: Tree, i: nat): (r: Outcome<int>)
    requires WellFormed(t) && i < |t|
    requires t[i].leftSibling.Some? || t[i].parent.Some?
    ensures t[i].leftSibling.Some? ==>
              (r.Ok? <==> StartBounds(c, t, t[i].leftSibling.value).Ok? &&
                          StartBounds(c, t, t[i].leftSibling.value).value.Some?)
    ensures t[i].leftSibling.None? ==> (r.Ok? <==> StartBounds(c, t, t[i].parent.value).Ok?)
    ensures t[i].leftSibling.None? && StartBounds(c, t, t[i].parent.value) == Ok(None) ==> r == Ok(DefaultExecY)
  {
    if t[i].leftSibling.Some? then
      match StartBounds(c, t, t[i].leftSibling.value)
      case Ok(Some(b)) => Ok(b.y + b.height + ExecSpacing)
      case _ => NullPointer
    else
      match StartBounds(c, t, t[i].parent.value)
      case NullPointer => NullPointer
      case Ok(None) => Ok(DefaultExecY)
      case Ok(Some(b)) => Ok(b.y + ExecSpacing)
  }

  /**
   * The rectangle of the start (`!isEnd`) or end (`isEnd`) execution view of a
   * new call node. The width is never set.
   */
  function CreateExecBounds(c: Compartment, t: Tree, i: nat, isEnd: bool): (r: Outcome<Bounds>)
    requires WellFormed(t) && i < |t|
    ensures r.Ok? ==> r.value.width == UnsetSize
    ensures r.Ok? ==> r.value.height == StartHeight || (isEnd && r.value.height == EndHeight)
    ensures r.Ok? ==> ActionExecutionPositionX(c, t, i, isEnd, t[i].leftSibling.Some?) == Ok(r.value.x)
    ensures r.NullPointer? <==>
              || ActionExecutionPositionX(c, t, i, isEnd, t[i].leftSibling.Some?).NullPointer?
              || ((t[i].leftSibling.Some? || t[i].parent.Some?) && NewExecY(c, t, i).NullPointer?)
  {
    var hasParent := t[i].parent.Some?;
    var hasSibling := t[i].leftSibling.Some?;
    match ActionExecutionPositionX(c, t, i, isEnd, hasSibling)
    case NullPointer => NullPointer
    case Ok(x) =>
      if !hasSibling && !hasParent then
        Ok(Bounds(x, DefaultExecY, UnsetSize, StartHeight))
      else
        match NewExecY(c, t, i)
        case NullPointer => NullPointer
        case Ok(y) =>
          if isEnd then Ok(Bounds(x, y + EndInset, UnsetSize, EndHeight))
          else Ok(Bounds(x, y, UnsetSize, StartHeight))
  }

  /**
   * A node with neither sibling nor parent: its start crashes on the missing
   * parent; its end, when placed, sits at the default top with a start's
   * height (the end adjustment is never reached).
   */
  lemma CreateExecBoundsAtRoot(c: Compartment, t: Tree, i: nat, isEnd: bool)
    requires WellFormed(t) && i < |t|
    requires t[i].parent.None? && t[i].leftSibling.None?
    ensures !isEnd ==> CreateExecBounds(c, t, i, isEnd) == NullPointer
    ensures isEnd ==>
      (CreateExecBounds(c, t, i, isEnd).Ok? <==> LifelineViewIndex(c, t[i].name).Some?)
    ensures isEnd && CreateExecBounds(c, t, i, isEnd).Ok? ==>
      CreateExecBounds(c, t, i, isEnd).value.y == DefaultExecY &&
      CreateExecBounds(c, t, i, isEnd).value.height == StartHeight
  {
  }

  /** With a left sibling, a new execution starts 30 below the bottom of the sibling's start view. */
  lemma CreateExecBoundsBelowSibling(c: Compartment, t: Tree, i: nat, isEnd: bool)
    requires WellFormed(t) && i < |t| && t[i].leftSibling.Some?
    requires CreateExecBounds(c, t, i, isEnd).Ok?
    ensures var s := t[i].leftSibling.value;
            var r := CreateExecBounds(c, t, i, isEnd).value;
            && StartBounds(c, t, s).Ok? && StartBounds(c, t, s).value.Some?
            && var b := StartBounds(c, t, s).value.value;
               && r.y == b.y + b.height + ExecSpacing + (if isEnd then EndInset else 0)
               && r.height == (if isEnd then EndHeight else StartHeight)
  {
  }

  /**
   * With only a parent, a new execution starts 30 below the top of the
   * parent's start view, or at the default top when the parent has none.
   */
  lemma CreateExecBoundsUnderParent(c: Compartment, t: Tree, i: nat, isEnd: bool)
    requires WellFormed(t) && i < |t| && t[i].leftSibling.None? && t[i].parent.Some?
    requires CreateExecBounds(c, t, i, isEnd).Ok?
    ensures var p := t[i].parent.value;
            var r := CreateExecBounds(c, t, i, isEnd).value;
            var shift := if isEnd then EndInset else 0;
            && StartBounds(c, t, p).Ok?
            && (StartBounds(c, t, p).value.None? ==> r.y == DefaultExecY + shift)
            && (StartBounds(c, t, p).value.Some? ==> r.y == StartBounds(c, t, p).value.value.y + ExecSpacing + shift)
            && r.height == (if isEnd then EndHeight else StartHeight)
  {
  }

  /**
   * For a node with a sibling or a parent, the end view lies strictly inside
   * the start view vertically: 5 below its top and 5 above its bottom.
   */
  lemma EndBoundsNestInStartBounds(c: Compartment, t: Tree, i: nat)
    requires WellFormed(t) && i < |t| && (t[i].leftSibling.Some? || t[i].parent.Some?)
    requires CreateExecBounds(c, t, i, false).Ok? && CreateExecBounds(c, t, i, true).Ok?
    ensures var s := CreateExecBounds(c, t, i, false).value;
            var e := CreateExecBounds(c, t, i, true).value;
            && e.y == s.y + EndInset
            && e.y + e.height == s.y + s.height - EndInset
  {
  }

  /** The rules that place a new execution horizontally. */
  lemma ActionExecutionPositionXRules(c: Compartment, t: Tree, i: nat, isEnd: bool)
    requires WellFormed(t) && i < |t|
    ensures var hasSibling := t[i].leftSibling.Some?;
            var r := ActionExecutionPositionX(c, t, i, isEnd, hasSibling);
            && (hasSibling && IsSelf(t, i) ==>
                  r == match StartBounds(c, t, t[i].leftSibling.value)
                       case Ok(Some(b)) => Ok(b.x + SelfIndent)
                       case _ => NullPointer)
            && (hasSibling && !IsSelf(t, i) && isEnd && EndBounds(c, t, t[i].leftSibling.value).Some? ==>
                  r == Ok(EndBounds(c, t, t[i].leftSibling.value).value.x))
            && (hasSibling && !IsSelf(t, i) && !isEnd ==>
                  r == match StartBounds(c, t, t[i].leftSibling.value)
                       case Ok(Some(b)) => Ok(b.x)
                       case _ => NullPointer)
            && ((!hasSibling || (!IsSelf(t, i) && isEnd && EndBounds(c, t, t[i].leftSibling.value).None?)) ==>
                  r == LifelineCentreX(c, t, i, isEnd))
  {
  }

  /** Centring on a lifeline uses the node's own lifeline for an end and the parent's for a start. */
  lemma LifelineCentreXRule(c: Compartment, t: Tree, i: nat, isEnd: bool)
    requires WellFormed(t) && i < |t|
    ensures var owner := if isEnd then Some(i) else t[i].parent;
            var r := LifelineCentreX(c, t, i, isEnd);
            && (owner.None? ==> r == NullPointer)
            && (owner.Some? ==>
                  match LifelineViewIndex(c, t[owner.value].name)
                  case None => r == NullPointer
                  case Some(l) =>
                    var w := c[l].bounds.width;
                    && r.Ok?
                    && r.value + (if IsSelf(t, i) && isEnd then 0 else ExecHalfWidth) == JavaHalf(w)
                    && (w >= 0 ==> 0 <= w - 2 * JavaHalf(w) <= 1)
                    && (w < 0 ==> -1 <= w - 2 * JavaHalf(w) <= 0))
  {
  }

  // ---------------------------------------------------------------------------
  // Fragments.

  const FragmentLeftMargin := 50
  const FragmentTopOffset := 10
  const FragmentPadding := 20
  const CombinedTopMargin := 10
  const CombinedSideMargin := 50
  const CombinedBottomMargin := 20

  /**
   * The rectangle of a new fragment around the start view of `i`: from 50
   * left of the given lifeline view to the position of the next lifeline, and
   * from 10 below the start view's top (in compartment coordinates) over its
   * height plus 20.
   */
  function ExtractFragmentBounds(c: Compartment, t: Tree, i: nat, lifelineView: nat): (r: Outcome<Bounds>)
    requires WellFormed(t) && i < |t| && lifelineView < |c|
    ensures r.Ok? <==> ExecutionStart(c, t, i).Ok? && ExecutionStart(c, t, i).value.Some?
    ensures r.Ok? ==> r.value.x == c[lifelineView].bounds.x - FragmentLeftMargin
  {
    match ExecutionStart(c, t, i)
    case Ok(Some(loc)) =>
      var action := ChildBounds(c, loc);
      var lifeline := c[lifelineView].bounds;
      Ok(Bounds(lifeline.x - FragmentLeftMargin,
                action.y + lifeline.y + FragmentTopOffset,
                LifelinePosition(c) - lifeline.x,
                action.height + FragmentPadding))
    case _ => NullPointer
  }

  /** The edges of a new fragment, stated against the lifeline and the start view. */
  lemma FragmentEdges(c: Compartment, t: Tree, i: nat, lifelineView: nat)
    requires WellFormed(t) && i < |t| && lifelineView < |c|
    ensures ExtractFragmentBounds(c, t, i, lifelineView).Ok? <==>
              (ExecutionStart(c, t, i).Ok? && ExecutionStart(c, t, i).value.Some?)
    ensures ExtractFragmentBounds(c, t, i, lifelineView).Ok? ==>
      var r := ExtractFragmentBounds(c, t, i, lifelineView).value;
      var action := ChildBounds(c, ExecutionStart(c, t, i).value.value);
      var lifeline := c[lifelineView].bounds;
      && r.x == lifeline.x - FragmentLeftMargin
      && r.x + r.width == LifelinePosition(c) - FragmentLeftMargin
      && r.y == lifeline.y + action.y + FragmentTopOffset
      && r.y + r.height == lifeline.y + action.y + action.height + FragmentTopOffset + FragmentPadding
  {
  }

  predicate StrictlyEncloses(outer: Bounds, inner: Bounds) {
    && outer.x < inner.x && inner.x + inner.width < outer.x + outer.width
    && outer.y < inner.y && inner.y + inner.height < outer.y + outer.height
  }

  /** A combined fragment's rectangle: the fragment view's, widened by fixed margins. */
  function ExtractCombinedFragmentBounds(c: Compartment, fragmentName: string): (r: Outcome<Bounds>)
    ensures r.Ok? <==> FragmentViewIndex(c, fragmentName).Some?
    ensures r.Ok? ==>
      var f := c[FragmentViewIndex(c, fragmentName).value].bounds;
      && r.value.x == f.x - CombinedSideMargin
      && r.value.x + r.value.width == f.x + f.width + CombinedSideMargin
      && r.value.y == f.y - CombinedTopMargin
      && r.value.y + r.value.height == f.y + f.height + CombinedBottomMargin
      && StrictlyEncloses(r.value, f)
  {
    match FragmentViewIndex(c, fragmentName)
    case None => NullPointer
    case Some(f) =>
      var b := c[f].bounds;
      Ok(Bounds(b.x - 50, b.y - 10, b.width + 100, b.height + 30))
  }

  /** The fragment view `f` resized after an execution with rectangle `action` was added into it. */
  function FragmentResized(c: Compartment, f: nat, action: Bounds): (r: Compartment)
    requires f < |c|
    ensures |r| == |c| && r[f].element == c[f].element && r[f].children == c[f].children
    ensures r[f].bounds.x == c[f].bounds.x && r[f].bounds.y == c[f].bounds.y
    ensures forall v :: 0 <= v < |c| && v != f ==> r[v] == c[v]
  {
    var b := c[f].bounds;
    c[f := c[f].(bounds := Bounds(b.x, b.y, LifelinePosition(c) - b.x, b.height + action.height + FragmentPadding))]
  }

  /**
   * Resizing keeps the fragment's top-left corner, grows it by the action's
   * height plus 20, and makes it end where the next lifeline will go, which the
   * resize itself does not move.
   */
  lemma FragmentResizeReachesLifelinePosition(c: Compartment, f: nat, action: Bounds)
    requires f < |c|
    ensures var r := FragmentResized(c, f, action);
            && Resembles(r, c)
            && LifelinePosition(r) == LifelinePosition(c)
            && r[f].bounds.x == c[f].bounds.x && r[f].bounds.y == c[f].bounds.y
            && r[f].bounds.x + r[f].bounds.width == LifelinePosition(r)
            && r[f].bounds.height == c[f].bounds.height + action.height + FragmentPadding
            && forall v :: 0 <= v < |c| && v != f ==> r[v] == c[v]
  {
    LifelinePositionIgnoresSizes(FragmentResized(c, f, action), c);
  }

  // ---------------------------------------------------------------------------
  // Moving the views below an insertion point.

  function ShiftedBounds(b: Bounds, moveReference: int, newHeight: int): Bounds {
    if b.y > moveReference then b.(y := b.y + newHeight) else b
  }

  function ShiftedChild(ch: ChildView, moveReference: int, newHeight: int): ChildView {
    if ch.element.ActionExecution? then ch.(bounds := ShiftedBounds(ch.bounds, moveReference, newHeight))
    else ch
  }

  function ShiftedView(v: View, moveReference: int, newHeight: int): View {
    View(v.element,
         if v.element.CombinedFragmentElement? then ShiftedBounds(v.bounds, moveReference, newHeight) else v.bounds,
         seq(|v.children|, k requires 0 <= k < |v.children| => ShiftedChild(v.children[k], moveReference, newHeight)))
  }

  /**
   * Every combined-fragment view and every execution view whose top is
   * strictly below `moveReference` moves down by `newHeight`.
   */
  function ShiftBelow(c: Compartment, moveReference: int, newHeight: int): (r: Compartment)
    ensures Resembles(r, c)
  {
    seq(|c|, v requires 0 <= v < |c| => ShiftedView(c[v], moveReference, newHeight))
  }

  /**
   * Only the tops of combined fragments and executions strictly below the
   * reference change, each by exactly `newHeight`; X, width and height never
   * change, and views at or above the reference stay where they are.
   */
  lemma ShiftBelowMovesOnlyLowerViews(c: Compartment, moveReference: int, newHeight: int)
    ensures var r := ShiftBelow(c, moveReference, newHeight);
            && Resembles(r, c)
            && (forall v :: 0 <= v < |c| ==>
                  && r[v].bounds.x == c[v].bounds.x
                  && r[v].bounds.width == c[v].bounds.width
                  && r[v].bounds.height == c[v].bounds.height
                  && r[v].bounds.y == (if c[v].element.CombinedFragmentElement? && c[v].bounds.y > moveReference
                                       then c[v].bounds.y + newHeight else c[v].bounds.y))
            && (forall v, k :: 0 <= v < |c| && 0 <= k < |c[v].children| ==>
                  var b := c[v].children[k].bounds;
                  var b' := r[v].children[k].bounds;
                  && b'.x == b.x && b'.width == b.width && b'.height == b.height
                  && b'.y == (if c[v].children[k].element.ActionExecution? && b.y > moveReference
                              then b.y + newHeight else b.y))
  {
  }

  /** A downward shift moves no view across the reference: below stays below, the rest stays put. */
  lemma ShiftBelowKeepsSides(c: Compartment, moveReference: int, newHeight: int)
    requires newHeight >= 0
    ensures var r := ShiftBelow(c, moveReference, newHeight);
            && (forall v :: 0 <= v < |c| ==>
                  (r[v].bounds.y > moveReference <==> c[v].bounds.y > moveReference)
                  && r[v].bounds.y >= c[v].bounds.y)
            && (forall v, k :: 0 <= v < |c| && 0 <= k < |c[v].children| ==>
                  (r[v].children[k].bounds.y > moveReference <==> c[v].children[k].bounds.y > moveReference)
                  && r[v].children[k].bounds.y >= c[v].children[k].bounds.y)
  {
  }

  /** A downward shift is undone by the opposite shift from the moved reference. */
  lemma ShiftBelowUndone(c: Compartment, moveReference: int, newHeight: int)
    requires newHeight >= 0
    ensures ShiftBelow(ShiftBelow(c, moveReference, newHeight), moveReference + newHeight, -newHeight) == c
  {
    var r := ShiftBelow(ShiftBelow(c, moveReference, newHeight), moveReference + newHeight, -newHeight);
    EqualFromBounds(r, c);
  }

  // ---------------------------------------------------------------------------
  // Growing the ancestors of a new execution.

  function Grown(b: Bounds, dh: int): Bounds {
    b.(height := b.height + dh)
  }

  /** The execution view at `loc` grown by `dh`. */
  function GrowAt(c: Compartment, loc: Loc, dh: int): (r: Compartment)
    requires ValidLoc(c, loc)
    ensures Resembles(r, c)
  {
    var v := c[loc.view];
    var ch := v.children[loc.child];
    c[loc.view := v.(children := v.children[loc.child := ch.(bounds := Grown(ch.bounds, dh))])]
  }

  datatype Adjustment = Adjustment(crashed: bool, compartment: Compartment)

  /**
   * The parent walk of adjustParentExecSpecs: from `i` up while the node has a
   * parent, the node's start and end views both grow by `dh`; the walk stops at
   * the first node missing either view, and crashes where a start lookup
   * dereferences null.
   */
  function Adjusted(c: Compartment, t: Tree, i: nat, dh: int): (r: Adjustment)
    requires WellFormed(t) && i < |t|
    ensures Resembles(r.compartment, c)
    decreases i
  {
    match t[i].parent
    case None => Adjustment(false, c)
    case Some(p) =>
      match ExecutionStart(c, t, i)
      case NullPointer => Adjustment(true, c)
      case Ok(start) =>
        var end := ExecutionEnd(c, t, i);
        if start.None? || end.None? then Adjustment(false, c)
        else
          var c' := GrowAt(GrowAt(c, start.value, dh), end.value, dh);
          ResemblingShapes(c', c);
          Adjusted(c', t, p, dh)
  }

  /** One step of the parent walk: the node visited and the views it grows. */
  datatype AdjustStep = AdjustStep(node: nat, start: Loc, end: Loc)

  datatype Walk = Walk(steps: seq<AdjustStep>, crashed: bool)

  /**
   * The nodes the parent walk visits and the views it grows, read off the
   * shape alone: the first step is at `i`, each next step at the previous
   * node's parent, and every visited node has a parent (the root is never
   * adjusted).
   */
  function AdjustWalk(s: Shape, t: Tree, i: nat): (w: Walk)
    requires WellFormed(t) && i < |t|
    ensures |w.steps| <= i
    ensures t[i].parent.None? ==> w == Walk([], false)
    decreases i
  {
    match t[i].parent
    case None => Walk([], false)
    case Some(p) =>
      match StartIn(s, t, i)
      case NullPointer => Walk([], true)
      case Ok(start) =>
        var end := EndIn(s, t, i);
        if start.None? || end.None? then Walk([], false)
        else
          var w := AdjustWalk(s, t, p);
          Walk([AdjustStep(i, start.value, end.value)] + w.steps, w.crashed)
  }

  /**
   * The walk climbs from `i` through parents: the first step is at `i`, each
   * next step at the previous node's parent, every visited node has a parent
   * (the root is never adjusted), and both views of each step are execution
   * views.
   */
  lemma {:induction false} AdjustWalkClimbs(s: Shape, t: Tree, i: nat)
    requires WellFormed(t) && i < |t|
    ensures var w := AdjustWalk(s, t, i);
      && (forall k :: 0 <= k < |w.steps| ==>
            && w.steps[k].node < |t| && t[w.steps[k].node].parent.Some?
            && ExecutionAt(s, w.steps[k].start) && ExecutionAt(s, w.steps[k].end))
      && (|w.steps| > 0 ==> w.steps[0].node == i)
      && (forall k :: 0 < k < |w.steps| ==> w.steps[k].node == t[w.steps[k - 1].node].parent.value)
      && (t[i].parent.None? ==> w == Walk([], false))
    decreases i
  {
    var w := AdjustWalk(s, t, i);
    match t[i].parent
    case None =>
    case Some(p) =>
      match StartIn(s, t, i)
      case NullPointer =>
      case Ok(start) =>
        var end := EndIn(s, t, i);
        if start.Some? && end.Some? {
          var w' := AdjustWalk(s, t, p);
          AdjustWalkClimbs(s, t, p);
          var step := AdjustStep(i, start.value, end.value);
          assert w.steps == [step] + w'.steps;
          forall k | 0 < k < |w.steps|
            ensures w.steps[k] == w'.steps[k - 1]
          {
          }
        }
  }

  /** The step grows exactly the start and end views the lookups give for its node. */
  predicate GrowsOwnViews(s: Shape, t: Tree, step: AdjustStep)
    requires WellFormed(t)
  {
    && step.node < |t|
    && StartIn(s, t, step.node) == Ok(Some(step.start))
    && EndIn(s, t, step.node) == Some(step.end)
  }

  /** Step `k` of the walk grows its own node's start and end views. */
  lemma {:induction false} AdjustWalkStepGrowsOwnViews(s: Shape, t: Tree, i: nat, k: nat)
    requires WellFormed(t) && i < |t|
    requires k < |AdjustWalk(s, t, i).steps|
    ensures GrowsOwnViews(s, t, AdjustWalk(s, t, i).steps[k])
    decreases i
  {
    var w := AdjustWalk(s, t, i);
    match t[i].parent
    case Some(p) =>
      match StartIn(s, t, i)
      case Ok(start) =>
        var end := EndIn(s, t, i);
        assert start.Some? && end.Some?;
        var w' := AdjustWalk(s, t, p);
        var step := AdjustStep(i, start.value, end.value);
        assert w.steps == [step] + w'.steps;
        if k == 0 {
          assert w.steps[0] == step;
        } else {
          assert w.steps[k] == w'.steps[k - 1];
          AdjustWalkStepGrowsOwnViews(s, t, p, k - 1);
        }
  }

  /** Every step of the walk grows its own node's start and end views. */
  lemma AdjustWalkGrowsOwnViews(s: Shape, t: Tree, i: nat)
    requires WellFormed(t) && i < |t|
    ensures var w := AdjustWalk(s, t, i);
      forall k :: 0 <= k < |w.steps| ==> GrowsOwnViews(s, t, w.steps[k])
  {
    forall k | 0 <= k < |AdjustWalk(s, t, i).steps|
      ensures GrowsOwnViews(s, t, AdjustWalk(s, t, i).steps[k])
    {
      AdjustWalkStepGrowsOwnViews(s, t, i, k);
    }
  }

  /**
   * Where the walk stops: at the node after the last step (or `i` with no
   * step). It crashes exactly when that node has a parent and its start lookup
   * dereferences null; otherwise that node is the root or lacks a view.
   */
  lemma {:induction false} AdjustWalkStops(s: Shape, t: Tree, i: nat)
    requires WellFormed(t) && i < |t|
    ensures var w := AdjustWalk(s, t, i);
      |w.steps| > 0 ==> w.steps[|w.steps| - 1].node < |t| && t[w.steps[|w.steps| - 1].node].parent.Some?
    ensures var w := AdjustWalk(s, t, i);
      var e := if |w.steps| == 0 then i else t[w.steps[|w.steps| - 1].node].parent.value;
      && e < |t|
      && (w.crashed <==> t[e].parent.Some? && StartIn(s, t, e).NullPointer?)
      && (!w.crashed ==> t[e].parent.None? || StartIn(s, t, e) == Ok(None) || EndIn(s, t, e).None?)
    decreases i
  {
    var w := AdjustWalk(s, t, i);
    if t[i].parent.Some? && StartIn(s, t, i).Ok? {
      var p := t[i].parent.value;
      var start := StartIn(s, t, i).value;
      var end := EndIn(s, t, i);
      if start.Some? && end.Some? {
        var w' := AdjustWalk(s, t, p);
        AdjustWalkStops(s, t, p);
        assert w.steps == [AdjustStep(i, start.value, end.value)] + w'.steps;
        if |w'.steps| > 0 {
          assert w.steps[|w.steps| - 1] == w'.steps[|w'.steps| - 1];
        }
      }
    }
  }

  /** The views a walk grows, start then end, in visiting order. */
  function WalkLocs(steps: seq<AdjustStep>): (r: seq<Loc>)
    ensures |r| == 2 * |steps|
    ensures forall k :: 0 <= k < |steps| ==> r[2 * k] == steps[k].start && r[2 * k + 1] == steps[k].end
  {
    if |steps| == 0 then []
    else [steps[0].start, steps[0].end] + WalkLocs(steps[1..])
  }

  function Occurrences(locs: seq<Loc>, loc: Loc): nat {
    if |locs| == 0 then 0
    else (if locs[0] == loc then 1 else 0) + Occurrences(locs[1..], loc)
  }

  /** Every location names an existing child view. */
  predicate AllValid(c: Compartment, locs: seq<Loc>) {
    forall k :: 0 <= k < |locs| ==> ValidLoc(c, locs[k])
  }

  lemma ResemblingValid(c: Compartment, d: Compartment, locs: seq<Loc>)
    requires Resembles(c, d) && AllValid(c, locs)
    ensures AllValid(d, locs)
  {
    forall k | 0 <= k < |locs|
      ensures ValidLoc(d, locs[k])
    {
      assert |c[locs[k].view].children| == |d[locs[k].view].children|;
    }
  }

  /** Growing one view changes that view's height by `dh` and no other rectangle. */
  lemma GrowAtEffect(c: Compartment, loc: Loc, dh: int)
    requires ValidLoc(c, loc)
    ensures var r := GrowAt(c, loc, dh);
            && (forall v :: 0 <= v < |c| ==> r[v].bounds == c[v].bounds)
            && (forall v, k :: 0 <= v < |c| && 0 <= k < |c[v].children| ==>
                  r[v].children[k].bounds ==
                    if Loc(v, k) == loc then Grown(c[v].children[k].bounds, dh) else c[v].children[k].bounds)
  {
  }

  lemma SuccTimes(dh: int, n: nat)
    ensures dh * (1 + n) == dh + dh * n
  {
  }

  lemma NegatedTimes(dh: int, back: int, n: nat)
    requires back == -dh
    ensures back * n == -(dh * n)
  {
  }

  /** Each of `locs` in turn grown by `dh`. */
  function AddHeights(c: Compartment, locs: seq<Loc>, dh: int): (r: Compartment)
    requires AllValid(c, locs)
    ensures Resembles(r, c)
    decreases |locs|
  {
    if |locs| == 0 then c
    else
      var c' := GrowAt(c, locs[0], dh);
      ResemblingValid(c, c', locs);
      assert AllValid(c', locs[1..]);
      AddHeights(c', locs[1..], dh)
  }

  /** `AddHeights` leaves the rectangle of every compartment child as it was. */
  lemma {:induction false} AddHeightsKeepsView(c: Compartment, locs: seq<Loc>, dh: int, v: nat)
    requires AllValid(c, locs) && v < |c|
    ensures AddHeights(c, locs, dh)[v].bounds == c[v].bounds
    decreases |locs|
  {
    if |locs| > 0 {
      var c' := GrowAt(c, locs[0], dh);
      ResemblingValid(c, c', locs);
      assert AllValid(c', locs[1..]);
      AddHeightsKeepsView(c', locs[1..], dh, v);
    }
  }

  /** One execution rectangle after `AddHeights`: grown by `dh` once per time `locs` names it. */
  lemma {:induction false} AddHeightsAtPoint(c: Compartment, locs: seq<Loc>, dh: int, v: nat, k: nat)
    requires AllValid(c, locs) && v < |c| && k < |c[v].children|
    ensures AddHeights(c, locs, dh)[v].children[k].bounds
            == Grown(c[v].children[k].bounds, dh * Occurrences(locs, Loc(v, k)))
    decreases |locs|
  {
    if |locs| > 0 {
      var c' := GrowAt(c, locs[0], dh);
      ResemblingValid(c, c', locs);
      assert AllValid(c', locs[1..]);
      AddHeightsAtPoint(c', locs[1..], dh, v, k);
      var n := Occurrences(locs[1..], Loc(v, k));
      if locs[0] == Loc(v, k) {
        assert c'[v].children[k].bounds == Grown(c[v].children[k].bounds, dh);
        SuccTimes(dh, n);
      } else {
        assert c'[v].children[k].bounds == c[v].children[k].bounds;
      }
    }
  }

  /**
   * Growing views one after another adds `dh` to a view's height once per
   * time it is named, and changes nothing else.
   */
  lemma {:induction false} AddHeightsAt(c: Compartment, locs: seq<Loc>, dh: int)
    requires AllValid(c, locs)
    ensures var r := AddHeights(c, locs, dh);
            && (forall v :: 0 <= v < |c| ==> r[v].bounds == c[v].bounds)
            && (forall v, k :: 0 <= v < |c| && 0 <= k < |c[v].children| ==>
                  r[v].children[k].bounds == Grown(c[v].children[k].bounds, dh * Occurrences(locs, Loc(v, k))))
  {
    var r := AddHeights(c, locs, dh);
    forall v | 0 <= v < |c|
      ensures r[v].bounds == c[v].bounds
    {
      AddHeightsKeepsView(c, locs, dh, v);
    }
    forall v, k | 0 <= v < |c| && 0 <= k < |c[v].children|
      ensures r[v].children[k].bounds == Grown(c[v].children[k].bounds, dh * Occurrences(locs, Loc(v, k)))
    {
      AddHeightsAtPoint(c, locs, dh, v, k);
    }
  }

  lemma {:induction false} AddHeightsUndoneAt(c: Compartment, locs: seq<Loc>, dh: int, back: int, v: nat, k: nat)
    requires AllValid(c, locs) && back == -dh && v < |c| && k < |c[v].children|
    ensures AllValid(AddHeights(c, locs, dh), locs)
    ensures AddHeights(AddHeights(c, locs, dh), locs, back)[v].children[k].bounds == c[v].children[k].bounds
  {
    var c1 := AddHeights(c, locs, dh);
    ResemblingValid(c, c1, locs);
    AddHeightsAtPoint(c, locs, dh, v, k);
    AddHeightsAtPoint(c1, locs, back, v, k);
    NegatedTimes(dh, back, Occurrences(locs, Loc(v, k)));
  }

  /** Growing the same views by `dh` and then by the opposite amount `back` restores every rectangle. */
  lemma {:induction false} AddHeightsUndone(c: Compartment, locs: seq<Loc>, dh: int, back: int)
    requires AllValid(c, locs) && back == -dh
    ensures AllValid(AddHeights(c, locs, dh), locs)
    ensures AddHeights(AddHeights(c, locs, dh), locs, back) == c
  {
    var c1 := AddHeights(c, locs, dh);
    ResemblingValid(c, c1, locs);
    var c2 := AddHeights(c1, locs, back);
    assert Resembles(c2, c);
    forall v | 0 <= v < |c|
      ensures c2[v].bounds == c[v].bounds
    {
      AddHeightsKeepsView(c, locs, dh, v);
      AddHeightsKeepsView(c1, locs, back, v);
    }
    forall v, k | 0 <= v < |c| && 0 <= k < |c[v].children|
      ensures c2[v].children[k].bounds == c[v].children[k].bounds
    {
      AddHeightsUndoneAt(c, locs, dh, back, v, k);
    }
    EqualFromBounds(c2, c);
  }

  /** The views of a walk over the compartment's own shape all exist. */
  lemma {:induction false} WalkLocsValid(c: Compartment, steps: seq<AdjustStep>)
    requires forall k :: 0 <= k < |steps| ==>
      ExecutionAt(ShapeOf(c), steps[k].start) && ExecutionAt(ShapeOf(c), steps[k].end)
    ensures AllValid(c, WalkLocs(steps))
    decreases |steps|
  {
    if |steps| > 0 {
      var rest := WalkLocs(steps[1..]);
      WalkLocsValid(c, steps[1..]);
      var locs := WalkLocs(steps);
      assert locs == [steps[0].start, steps[0].end] + rest;
      forall k | 0 <= k < |locs|
        ensures ValidLoc(c, locs[k])
      {
        if k >= 2 {
          assert locs[k] == rest[k - 2];
        }
      }
    }
  }

  /** The views the shape-only walk names all exist in the compartment. */
  lemma WalkValid(c: Compartment, t: Tree, i: nat)
    requires WellFormed(t) && i < |t|
    ensures AllValid(c, WalkLocs(AdjustWalk(ShapeOf(c), t, i).steps))
  {
    AdjustWalkClimbs(ShapeOf(c), t, i);
    WalkLocsValid(c, AdjustWalk(ShapeOf(c), t, i).steps);
  }

  /** Growing two views and then the rest is growing them all. */
  lemma AddHeightsTwo(c: Compartment, a: Loc, b: Loc, rest: seq<Loc>, dh: int)
    requires AllValid(c, [a, b] + rest)
    ensures ValidLoc(c, a) && ValidLoc(GrowAt(c, a, dh), b)
    ensures AllValid(GrowAt(GrowAt(c, a, dh), b, dh), rest)
    ensures AddHeights(c, [a, b] + rest, dh) == AddHeights(GrowAt(GrowAt(c, a, dh), b, dh), rest, dh)
  {
    var locs := [a, b] + rest;
    assert locs[0] == a && locs[1] == b;
    var c1 := GrowAt(c, a, dh);
    ResemblingValid(c, c1, locs);
    assert locs[1..] == [b] + rest;
    assert locs[1..][1..] == rest;
    var c2 := GrowAt(c1, b, dh);
    ResemblingValid(c1, c2, locs);
    assert AllValid(c2, rest);
  }

  /** The parent walk on a compartment grows exactly the views its shape-only walk names. */
  lemma {:induction false} AdjustedFollowsWalk(c: Compartment, t: Tree, i: nat, dh: int)
    requires WellFormed(t) && i < |t|
    ensures var w := AdjustWalk(ShapeOf(c), t, i);
            && AllValid(c, WalkLocs(w.steps))
            && Adjusted(c, t, i, dh) == Adjustment(w.crashed, AddHeights(c, WalkLocs(w.steps), dh))
    decreases i
  {
    var w := AdjustWalk(ShapeOf(c), t, i);
    WalkValid(c, t, i);
    match t[i].parent
    case None =>
    case Some(p) =>
      var start := ExecutionStart(c, t, i);
      var end := ExecutionEnd(c, t, i);
      if start.Ok? && start.value.Some? && end.Some? {
        var a, b := start.value.value, end.value;
        var c' := GrowAt(GrowAt(c, a, dh), b, dh);
        ResemblingShapes(c', c);
        assert Adjusted(c, t, i, dh) == Adjusted(c', t, p, dh);
        AdjustedFollowsWalk(c', t, p, dh);
        var w' := AdjustWalk(ShapeOf(c'), t, p);
        assert w.steps == [AdjustStep(i, a, b)] + w'.steps;
        assert w.steps[1..] == w'.steps;
        var rest := WalkLocs(w'.steps);
        assert WalkLocs(w.steps) == [a, b] + rest;
        AddHeightsTwo(c, a, b, rest, dh);
      }
  }

  /**
   * What the parent walk does to every rectangle: each view grows by `dh`
   * once per time the walk names it; no other rectangle changes.
   */
  lemma {:induction false} AdjustedHeights(c: Compartment, t: Tree, i: nat, dh: int)
    requires WellFormed(t) && i < |t|
    ensures var w := AdjustWalk(ShapeOf(c), t, i);
            var r := Adjusted(c, t, i, dh);
            && r.crashed == w.crashed
            && Resembles(r.compartment, c)
            && (forall v :: 0 <= v < |c| ==> r.compartment[v].bounds == c[v].bounds)
            && (forall v, k :: 0 <= v < |c| && 0 <= k < |c[v].children| ==>
                  r.compartment[v].children[k].bounds ==
                    Grown(c[v].children[k].bounds, dh * Occurrences(WalkLocs(w.steps), Loc(v, k))))
  {
    AdjustedFollowsWalk(c, t, i, dh);
    var w := AdjustWalk(ShapeOf(c), t, i);
    AddHeightsAt(c, WalkLocs(w.steps), dh);
  }

  /** The parent walk grows the views named by the given walk locations. */
  lemma {:induction false} AdjustedGrowsWalkLocs(c: Compartment, t: Tree, i: nat, dh: int, locs: seq<Loc>)
    requires WellFormed(t) && i < |t|
    requires locs == WalkLocs(AdjustWalk(ShapeOf(c), t, i).steps)
    ensures AllValid(c, locs) && Adjusted(c, t, i, dh).compartment == AddHeights(c, locs, dh)
  {
    AdjustedFollowsWalk(c, t, i, dh);
  }

  /** Growing the ancestors by `dh` and then by the opposite amount `back` restores every rectangle. */
  lemma {:induction false} AdjustedUndone(c: Compartment, t: Tree, i: nat, dh: int, back: int)
    requires WellFormed(t) && i < |t| && back == -dh
    ensures Adjusted(Adjusted(c, t, i, dh).compartment, t, i, back).compartment == c
  {
    var locs := WalkLocs(AdjustWalk(ShapeOf(c), t, i).steps);
    var c1 := Adjusted(c, t, i, dh).compartment;
    AdjustedGrowsWalkLocs(c, t, i, dh, locs);
    ResemblingShapes(c1, c);
    AdjustedGrowsWalkLocs(c1, t, i, back, locs);
    AddHeightsUndone(c, locs, dh, back);
  }

  // ---------------------------------------------------------------------------
  // The manager: the operations that change rectangles in place.

  class NotationBoundsManager {
    /** The children of the lifeline compartment of the diagram. */
    var compartment: Compartment

    constructor (c: Compartment)
      ensures compartment == c
    {
      compartment := c;
    }

    /** Scans the compartment from the end for the last lifeline view. */
    method CalculateLifelinePosition() returns (x: int)
      ensures x == LifelinePosition(compartment)
    {
      var j := |compartment|;
      while j > 0
        invariant 0 <= j <= |compartment|
        invariant forall k :: j <= k < |compartment| ==> !IsLifelineView(compartment[k])
      {
        j := j - 1;
        if IsLifelineView(compartment[j]) {
          return compartment[j].bounds.x + LifelineSpacing;
        }
      }
      return 0;
    }

    method GetNodeExecutionNotationStart(t: Tree, i: nat) returns (r: Outcome<Option<Loc>>)
      requires WellFormed(t) && i < |t|
      ensures r == ExecutionStart(compartment, t, i)
      decreases i
    {
      if t[i].parent.None? {
        return NullPointer;
      }
      var p := t[i].parent.value;
      var lifeline := LifelineViewIndex(compartment, t[p].name);
      if lifeline.None? {
        return Ok(None);
      }
      var l := lifeline.value;
      var children := compartment[l].children;
      ghost var es := ChildShape(compartment[l]);
      var message := t[i].createEdge.name;
      for k := 0 to |children|
        invariant NthStart(es, message, 0) == NthStartFrom(es, message, 0, k)
      {
        if StartsWith(children[k].element, message) {
          return Ok(Some(Loc(l, k)));
        }
      }
      if t[i].leftSibling.Some? {
        r := GetNodeExecutionNotationStart(t, t[i].leftSibling.value);
      } else {
        r := GetNodeExecutionNotationStart(t, p);
      }
    }

    method GetNodeExecutionNotationEnd(t: Tree, i: nat) returns (r: Option<Loc>)
      requires WellFormed(t) && i < |t|
      ensures r == ExecutionEnd(compartment, t, i)
      decreases i
    {
      var lifeline := LifelineViewIndex(compartment, t[i].name);
      if lifeline.None? {
        return None;
      }
      var l := lifeline.value;
      var children := compartment[l].children;
      ghost var es := ChildShape(compartment[l]);
      var message := t[i].createEdge.name;
      var isSelf := IsSelf(t, i);
      ghost var skip: nat := if isSelf then 1 else 0;
      var firstSelfFound := false;
      for k := 0 to |children|
        invariant firstSelfFound ==> isSelf
        invariant NthStart(es, message, skip) == NthStartFrom(es, message, if firstSelfFound then 0 else skip, k)
      {
        if StartsWith(children[k].element, message) {
          if isSelf && !firstSelfFound {
            firstSelfFound := true;
          } else {
            return Some(Loc(l, k));
          }
        }
      }
      if t[i].leftSibling.Some? {
        r := GetNodeExecutionNotationEnd(t, t[i].leftSibling.value);
      } else {
        r := None;
      }
    }

    /**
     * Walks from `nodeToAdjust` up the parents, growing each node's start and
     * end views by `newHeight`. Returns whether a lookup dereferenced null.
     */
    method AdjustParentExecSpecs(t: Tree, nodeToAdjust: nat, newHeight: int) returns (crashed: bool)
      requires WellFormed(t) && nodeToAdjust < |t|
      modifies this
      ensures Adjustment(crashed, compartment) == Adjusted(old(compartment), t, nodeToAdjust, newHeight)
    {
      var node: nat := nodeToAdjust;
      while t[node].parent.Some?
        invariant node < |t|
        invariant Adjusted(old(compartment), t, nodeToAdjust, newHeight) == Adjusted(compartment, t, node, newHeight)
        decreases node
      {
        var start := GetNodeExecutionNotationStart(t, node);
        if start.NullPointer? {
          return true;
        }
        var end := GetNodeExecutionNotationEnd(t, node);
        if start.value.None? || end.None? {
          return false;
        }
        var grown := GrowAt(compartment, start.value.value, newHeight);
        compartment := GrowAt(grown, end.value, newHeight);
        node := t[node].parent.value;
      }
      return false;
    }

    /** Moves every fragment and execution view strictly below `moveReference` down by `newHeight`. */
    method MoveActionSpecs(moveReference: int, newHeight: int)
      modifies this
      ensures compartment == ShiftBelow(old(compartment), moveReference, newHeight)
    {
      ghost var original := compartment;
      for v := 0 to |compartment|
        invariant |compartment| == |original|
        invariant forall w :: 0 <= w < v ==> compartment[w] == ShiftedView(original[w], moveReference, newHeight)
        invariant forall w :: v <= w < |compartment| ==> compartment[w] == original[w]
      {
        var view := compartment[v];
        if view.element.CombinedFragmentElement? && view.bounds.y > moveReference {
          view := view.(bounds := view.bounds.(y := view.bounds.y + newHeight));
        }
        var children := view.children;
        for k := 0 to |children|
          invariant |children| == |view.children|
          invariant forall j :: 0 <= j < k ==> children[j] == ShiftedChild(view.children[j], moveReference, newHeight)
          invariant forall j :: k <= j < |children| ==> children[j] == view.children[j]
        {
          var child := children[k];
          if child.element.ActionExecution? && child.bounds.y > moveReference {
            children := children[k := child.(bounds := child.bounds.(y := child.bounds.y + newHeight))];
          }
        }
        assert view.(children := children) == ShiftedView(original[v], moveReference, newHeight);
        compartment := compartment[v := view.(children := children)];
      }
      assert compartment == ShiftBelow(original, moveReference, newHeight);
    }

    /** Stretches the fragment view `fragment` to the next lifeline position and by the action's height. */
    method UpdateFragmentSize(fragment: nat, actionBounds: Bounds)
      requires fragment < |compartment|
      modifies this
      ensures compartment == FragmentResized(old(compartment), fragment, actionBounds)
    {
      var position := CalculateLifelinePosition();
      var b := compartment[fragment].bounds;
      var resized := Bounds(b.x, b.y, position - b.x, b.height + actionBounds.height + FragmentPadding);
      compartment := compartment[fragment := compartment[fragment].(bounds := resized)];
    }
  }
}
