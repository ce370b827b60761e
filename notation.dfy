/**
 * The notation (geometry) model of a sequence diagram, reduced to what the
 * layout code reads and writes: the children of the lifeline compartment
 * (lifeline views and combined-fragment views, each with a rectangle) and the
 * children of each of those (execution-specification views, each with the
 * name of the message that starts it, and a rectangle).
 *
 * The lookups of an execution view for a call node only read the kinds of
 * the views and the start-message names, never a rectangle; they are written
 * over the `Shape` of the compartment so that this is visible in their types.
 */
module Notation {
  import opened Wrappers
  import opened Graph

  /** A GMF `Bounds` rectangle. */
  datatype Bounds = Bounds(x: int, y: int, width: int, height: int)

  /** GMF's value for a width or height that was never set. */
  const UnsetSize := -1

  /** Horizontal distance between two consecutive lifelines. */
  const LifelineSpacing := 150

  /** Element of a child of a compartment view: an action execution specification
      (with the message name of its start occurrence, when that is a message
      occurrence) or anything else. */
  datatype ChildElement = ActionExecution(startMessage: Option<string>) | OtherChildElement

  datatype ChildView = ChildView(element: ChildElement, bounds: Bounds)

  /** Element of a child of the lifeline compartment. */
  datatype ViewElement =
    | LifelineElement(name: string)
    | CombinedFragmentElement(name: string)
    | OtherElement

  datatype View = View(element: ViewElement, bounds: Bounds, children: seq<ChildView>)

  /** The ordered children of the lifeline compartment. */
  type Compartment = seq<View>

  /** Address of an execution view: compartment child, then its child. */
  datatype Loc = Loc(view: nat, child: nat)

  /** A computation that may dereference a Java null. */
  datatype Outcome<+T> = Ok(value: T) | NullPointer

  predicate ValidLoc(c: Compartment, loc: Loc) {
    loc.view < |c| && loc.child < |c[loc.view].children|
  }

  function ChildBounds(c: Compartment, loc: Loc): Bounds
    requires ValidLoc(c, loc)
  {
    c[loc.view].children[loc.child].bounds
  }

  predicate IsLifelineView(v: View) {
    v.element.LifelineElement?
  }

  // ---------------------------------------------------------------------------
  // Shapes: the compartment with every rectangle erased.

  datatype ViewShape = ViewShape(element: ViewElement, children: seq<ChildElement>)

  type Shape = seq<ViewShape>

  function ChildShape(v: View): (es: seq<ChildElement>)
    ensures |es| == |v.children|
    ensures forall k :: 0 <= k < |es| ==> es[k] == v.children[k].element
  {
    seq(|v.children|, k requires 0 <= k < |v.children| => v.children[k].element)
  }

  function ShapeOf(c: Compartment): (s: Shape)
    ensures |s| == |c|
    ensures forall v :: 0 <= v < |c| ==> s[v] == ViewShape(c[v].element, ChildShape(c[v]))
  {
    seq(|c|, v requires 0 <= v < |c| => ViewShape(c[v].element, ChildShape(c[v])))
  }

  /** Two compartments that differ at most in their rectangles. */
  predicate Resembles(c: Compartment, d: Compartment) {
    && |c| == |d|
    && (forall v :: 0 <= v < |c| ==> c[v].element == d[v].element && |c[v].children| == |d[v].children|)
    && (forall v, k :: 0 <= v < |c| && 0 <= k < |c[v].children| ==>
          c[v].children[k].element == d[v].children[k].element)
  }

  lemma ResemblingShapes(c: Compartment, d: Compartment)
    requires Resembles(c, d)
    ensures ShapeOf(c) == ShapeOf(d)
  {
    forall v | 0 <= v < |c|
      ensures ChildShape(c[v]) == ChildShape(d[v])
    {
    }
  }

  /** Resembling compartments that agree on every rectangle are equal. */
  lemma EqualFromBounds(c: Compartment, d: Compartment)
    requires Resembles(c, d)
    requires forall v :: 0 <= v < |c| ==> c[v].bounds == d[v].bounds
    requires forall v, k :: 0 <= v < |c| && 0 <= k < |c[v].children| ==>
               c[v].children[k].bounds == d[v].children[k].bounds
    ensures c == d
  {
    forall v | 0 <= v < |c|
      ensures c[v] == d[v]
    {
      assert c[v].children == d[v].children;
    }
  }

  // ---------------------------------------------------------------------------
  // Matching an execution view by the name of its start message.

  predicate StartsWith(e: ChildElement, message: string) {
    e == ActionExecution(Some(message))
  }

  /** Number of execution views in `es` started by `message`. */
  function CountStarts(es: seq<ChildElement>, message: string): nat {
    if |es| == 0 then 0
    else (if StartsWith(es[0], message) then 1 else 0) + CountStarts(es[1..], message)
  }

  lemma {:induction false} CountStartsAppend(a: seq<ChildElement>, b: seq<ChildElement>, message: string)
    ensures CountStarts(a + b, message) == CountStarts(a, message) + CountStarts(b, message)
    decreases |a|
  {
    if |a| == 0 {
      assert a + b == b;
    } else {
      assert (a + b)[1..] == a[1..] + b;
      CountStartsAppend(a[1..], b, message);
    }
  }

  /** A match at `k` is counted beyond the prefix before `k`. */
  lemma CountStartsPastMatch(es: seq<ChildElement>, message: string, k: nat)
    requires k < |es| && StartsWith(es[k], message)
    ensures CountStarts(es, message) > CountStarts(es[..k], message)
  {
    assert es == es[..k] + es[k..];
    CountStartsAppend(es[..k], es[k..], message);
  }

  /**
   * Scanning from `from`, the execution view started by `message` that has
   * exactly `skip` such views before it (from `from` on), if there is one.
   */
  function NthStartFrom(es: seq<ChildElement>, message: string, skip: nat, from: nat): (r: Option<nat>)
    requires from <= |es|
    ensures r.Some? ==>
      && from <= r.value < |es|
      && StartsWith(es[r.value], message)
      && CountStarts(es[from..r.value], message) == skip
    ensures r.None? ==> CountStarts(es[from..], message) <= skip
    decreases |es| - from
  {
    if from == |es| then None
    else
      assert es[from..][1..] == es[from + 1..];
      if StartsWith(es[from], message) then
        if skip == 0 then Some(from)
        else
          var r := NthStartFrom(es, message, skip - 1, from + 1);
          assert r.Some? ==> es[from..r.value][1..] == es[from + 1..r.value];
          r
      else
        var r := NthStartFrom(es, message, skip, from + 1);
        assert r.Some? ==> es[from..r.value][1..] == es[from + 1..r.value];
        r
  }

  function NthStart(es: seq<ChildElement>, message: string, skip: nat): (r: Option<nat>)
    ensures r.Some? ==>
      && r.value < |es|
      && StartsWith(es[r.value], message)
      && CountStarts(es[..r.value], message) == skip
    ensures r.None? ==> CountStarts(es, message) <= skip
  {
    assert es[0..] == es;
    NthStartFrom(es, message, skip, 0)
  }

  // ---------------------------------------------------------------------------
  // Views by model element (the notation manager's lookups).

  function FirstViewFrom(s: Shape, e: ViewElement, from: nat): (r: Option<nat>)
    requires from <= |s|
    ensures r.Some? ==> from <= r.value < |s| && s[r.value].element == e
    ensures r.Some? ==> forall k :: from <= k < r.value ==> s[k].element != e
    ensures r.None? ==> forall k :: from <= k < |s| ==> s[k].element != e
    decreases |s| - from
  {
    if from == |s| then None
    else if s[from].element == e then Some(from)
    else FirstViewFrom(s, e, from + 1)
  }

  /** The view of the lifeline called `name`: the first such compartment child. */
  function LifelineViewIndex(c: Compartment, name: string): (r: Option<nat>)
    ensures r.Some? ==> r.value < |c| && c[r.value].element == LifelineElement(name)
    ensures r.None? ==> forall k :: 0 <= k < |c| ==> c[k].element != LifelineElement(name)
  {
    FirstViewFrom(ShapeOf(c), LifelineElement(name), 0)
  }

  /** The view of the combined fragment called `name`: the first such compartment child. */
  function FragmentViewIndex(c: Compartment, name: string): (r: Option<nat>)
    ensures r.Some? ==> r.value < |c| && c[r.value].element == CombinedFragmentElement(name)
    ensures r.None? ==> forall k :: 0 <= k < |c| ==> c[k].element != CombinedFragmentElement(name)
  {
    FirstViewFrom(ShapeOf(c), CombinedFragmentElement(name), 0)
  }

  // ---------------------------------------------------------------------------
  // Execution lookups for a call node.

  /** The location addresses an execution view on a lifeline view. */
  predicate ExecutionAt(s: Shape, loc: Loc) {
    loc.view < |s| && loc.child < |s[loc.view].children|
    && s[loc.view].element.LifelineElement?
    && s[loc.view].children[loc.child].ActionExecution?
  }

  /**
   * The execution view a call node starts: on the lifeline of the node's
   * parent, the first execution started by the node's message; failing that,
   * the same search for the left sibling, or else for the parent. A node
   * without a parent dereferences null.
   */
  function StartIn(s: Shape, t: Tree, i: nat): (r: Outcome<Option<Loc>>)
    requires WellFormed(t) && i < |t|
    ensures r.Ok? && r.value.Some? ==> ExecutionAt(s, r.value.value)
    decreases i
  {
    match t[i].parent
    case None => NullPointer
    case Some(p) =>
      match FirstViewFrom(s, LifelineElement(t[p].name), 0)
      case None => Ok(None)
      case Some(l) =>
        match NthStart(s[l].children, t[i].createEdge.name, 0)
        case Some(k) => Ok(Some(Loc(l, k)))
        case None =>
          match t[i].leftSibling
          case Some(ls) => StartIn(s, t, ls)
          case None => StartIn(s, t, p)
  }

  /**
   * The execution view that ends a call node: on the node's own lifeline, the
   * first execution started by the node's message, or the second one for a
   * self message (the first is the call's own start); failing that, the same
   * search for the left sibling, or nothing.
   */
  function EndIn(s: Shape, t: Tree, i: nat): (r: Option<Loc>)
    requires WellFormed(t) && i < |t|
    ensures r.Some? ==> ExecutionAt(s, r.value)
    decreases i
  {
    match FirstViewFrom(s, LifelineElement(t[i].name), 0)
    case None => None
    case Some(l) =>
      match NthStart(s[l].children, t[i].createEdge.name, if IsSelf(t, i) then 1 else 0)
      case Some(k) => Some(Loc(l, k))
      case None =>
        match t[i].leftSibling
        case Some(ls) => EndIn(s, t, ls)
        case None => None
  }

  function ExecutionStart(c: Compartment, t: Tree, i: nat): (r: Outcome<Option<Loc>>)
    requires WellFormed(t) && i < |t|
    ensures r.Ok? && r.value.Some? ==>
      ValidLoc(c, r.value.value) && c[r.value.value.view].children[r.value.value.child].element.ActionExecution?
  {
    StartIn(ShapeOf(c), t, i)
  }

  function ExecutionEnd(c: Compartment, t: Tree, i: nat): (r: Option<Loc>)
    requires WellFormed(t) && i < |t|
    ensures r.Some? ==>
      ValidLoc(c, r.value) && c[r.value.view].children[r.value.child].element.ActionExecution?
  {
    EndIn(ShapeOf(c), t, i)
  }

  /**
   * End lookup on the node's own lifeline: the execution returned is the one
   * with exactly one earlier match for a self message and none otherwise;
   * when there are not enough matches the search moves to the left sibling.
   */
  lemma ExecutionEndOnOwnLifeline(c: Compartment, t: Tree, i: nat, l: nat)
    requires WellFormed(t) && i < |t|
    requires LifelineViewIndex(c, t[i].name) == Some(l)
    ensures var es := ChildShape(c[l]);
            var skip := if IsSelf(t, i) then 1 else 0;
            && (CountStarts(es, t[i].createEdge.name) > skip ==>
                  exists k :: 0 <= k < |es|
                    && ExecutionEnd(c, t, i) == Some(Loc(l, k))
                    && StartsWith(es[k], t[i].createEdge.name)
                    && CountStarts(es[..k], t[i].createEdge.name) == skip)
            && (CountStarts(es, t[i].createEdge.name) <= skip ==>
                  ExecutionEnd(c, t, i) ==
                    if t[i].leftSibling.Some? then ExecutionEnd(c, t, t[i].leftSibling.value) else None)
  {
    var es := ChildShape(c[l]);
    var skip := if IsSelf(t, i) then 1 else 0;
    var r := NthStart(es, t[i].createEdge.name, skip);
    if r.Some? {
      CountStartsPastMatch(es, t[i].createEdge.name, r.value);
      assert ExecutionEnd(c, t, i) == Some(Loc(l, r.value));
    }
  }

  /**
   * Start lookup on the parent's lifeline: the first execution started by the
   * node's message; with none there, the left sibling's start, else the
   * parent's start.
   */
  lemma ExecutionStartOnParentLifeline(c: Compartment, t: Tree, i: nat, p: nat, l: nat)
    requires WellFormed(t) && i < |t|
    requires t[i].parent == Some(p)
    requires LifelineViewIndex(c, t[p].name) == Some(l)
    ensures var es := ChildShape(c[l]);
            && (CountStarts(es, t[i].createEdge.name) > 0 ==>
                  exists k :: 0 <= k < |es|
                    && ExecutionStart(c, t, i) == Ok(Some(Loc(l, k)))
                    && StartsWith(es[k], t[i].createEdge.name)
                    && CountStarts(es[..k], t[i].createEdge.name) == 0)
            && (CountStarts(es, t[i].createEdge.name) == 0 ==>
                  ExecutionStart(c, t, i) ==
                    if t[i].leftSibling.Some? then ExecutionStart(c, t, t[i].leftSibling.value)
                    else ExecutionStart(c, t, p))
  {
    var es := ChildShape(c[l]);
    var r := NthStart(es, t[i].createEdge.name, 0);
    if r.Some? {
      CountStartsPastMatch(es, t[i].createEdge.name, r.value);
      assert ExecutionStart(c, t, i) == Ok(Some(Loc(l, r.value)));
    }
  }

  /** A start lookup reaching a node without a parent dereferences null. */
  lemma ExecutionStartOfRoot(c: Compartment, t: Tree, i: nat)
    requires WellFormed(t) && i < |t| && t[i].parent.None?
    ensures ExecutionStart(c, t, i) == NullPointer
  {
  }

  /**
   * Without a view for the lifeline searched, the end lookup finds nothing and
   * the start lookup finds nothing without crashing.
   */
  lemma ExecutionLookupsWithoutLifelineView(c: Compartment, t: Tree, i: nat)
    requires WellFormed(t) && i < |t|
    ensures LifelineViewIndex(c, t[i].name).None? ==> ExecutionEnd(c, t, i) == None
    ensures t[i].parent.Some? && LifelineViewIndex(c, t[t[i].parent.value].name).None? ==>
              ExecutionStart(c, t, i) == Ok(None)
  {
  }

  // ---------------------------------------------------------------------------
  // Placement of a new lifeline.

  /** The last compartment child that is a lifeline view. */
  function LastLifelineIndex(c: Compartment): (r: Option<nat>)
    ensures r.Some? ==> r.value < |c| && IsLifelineView(c[r.value])
    ensures r.Some? ==> forall k :: r.value < k < |c| ==> !IsLifelineView(c[k])
    ensures r.None? ==> forall k :: 0 <= k < |c| ==> !IsLifelineView(c[k])
    decreases |c|
  {
    if |c| == 0 then None
    else if IsLifelineView(c[|c| - 1]) then Some(|c| - 1)
    else LastLifelineIndex(c[..|c| - 1])
  }

  /** X of a new lifeline: one spacing right of the last lifeline view, or 0. */
  function LifelinePosition(c: Compartment): (r: int)
    ensures (forall k :: 0 <= k < |c| ==> !IsLifelineView(c[k])) ==> r == 0
    ensures forall k :: 0 <= k < |c| && IsLifelineView(c[k]) &&
                        (forall j :: k < j < |c| ==> !IsLifelineView(c[j])) ==>
                          r == c[k].bounds.x + LifelineSpacing
  {
    match LastLifelineIndex(c)
    case None => 0
    case Some(k) => c[k].bounds.x + LifelineSpacing
  }

  /** Only the kinds of the views and the X of lifeline views decide the placement. */
  lemma LifelinePositionIgnoresSizes(c: Compartment, d: Compartment)
    requires |c| == |d|
    requires forall v :: 0 <= v < |c| ==> c[v].element == d[v].element && c[v].bounds.x == d[v].bounds.x
    ensures LifelinePosition(c) == LifelinePosition(d)
  {
    var a, b := LastLifelineIndex(c), LastLifelineIndex(d);
    if a.Some? {
      assert IsLifelineView(d[a.value]);
    }
    if b.Some? {
      assert IsLifelineView(c[b.value]);
    }
  }

  /** A lifeline view appended at the computed position moves the next position one spacing right. */
  lemma AppendedLifelinePosition(c: Compartment, name: string, b: Bounds, children: seq<ChildView>)
    requires b.x == LifelinePosition(c)
    ensures LifelinePosition(c + [View(LifelineElement(name), b, children)]) == LifelinePosition(c) + LifelineSpacing
  {
    var d := c + [View(LifelineElement(name), b, children)];
    assert IsLifelineView(d[|d| - 1]);
  }

  /** Three lifelines added to an empty compartment are placed at 0, 150 and 300. */
  lemma ThreeLifelinesFromEmpty(b0: Bounds, b1: Bounds, b2: Bounds)
    requires b0.x == LifelinePosition([])
    requires b1.x == LifelinePosition([View(LifelineElement("L0"), b0, [])])
    requires b2.x == LifelinePosition([View(LifelineElement("L0"), b0, []), View(LifelineElement("L1"), b1, [])])
    ensures b0.x == 0 && b1.x == 150 && b2.x == 300
  {
    AppendedLifelinePosition([], "L0", b0, []);
    AppendedLifelinePosition([View(LifelineElement("L0"), b0, [])], "L1", b1, []);
  }

  // ---------------------------------------------------------------------------
  // Java integer division.

  /** Java's `w / 2` on an int: the quotient rounded toward zero. */
  function JavaHalf(w: int): (q: int)
    ensures w >= 0 ==> 0 <= w - 2 * q <= 1
    ensures w < 0 ==> -1 <= w - 2 * q <= 0
  {
    if w >= 0 then w / 2 else -((-w) / 2)
  }
}
