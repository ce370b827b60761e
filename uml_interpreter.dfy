/**
 * The interpreter that applies changes to the UML model and its notation
 * (UmlModelInterpreter). The model and notation managers and the resources
 * they save are abstract: every call the interpreter makes on them is
 * recorded as an event, and what a manager call returns is named by the
 * position of the event that produced it.
 */
module UmlInterpreter {
  import opened Wrappers
  import opened Graph
  import opened Changes

  datatype Resource = ModelResource | NotationResource

  datatype Event =
    | ModelAddMessage(call: nat, reply: nat)
      /** `modelSet` is the position of the model event whose result is passed on. */
    | NotationAddMessage(call: nat, modelSet: nat)
    | NotationRemoveMessage(call: nat, reply: nat)
      /** `removeSet` is the position of the notation event whose result is passed on. */
    | ModelRemoveMessage(call: nat, reply: nat, removeSet: nat)
    | ModelAddLifeline(node: nat)
      /** `modelLifeline` is the position of the model event that created the lifeline. */
    | NotationAddLifeline(node: nat, modelLifeline: nat)
    | NotationRemoveLifeline(node: nat)
    | Save(resource: Resource, succeeded: bool)

  datatype InterpreterError =
    | MissingReturnMessage(message: string)
    | ModelSaveFailed
    | NotationSaveFailed

  /** What one operation adds to the trace, and the error it ends with, if any. */
  datatype Step = Step(events: seq<Event>, error: Option<InterpreterError>)

  /** The event changes the given resource's contents. */
  predicate Alters(e: Event, r: Resource) {
    match e
    case ModelAddMessage(_, _) => r == ModelResource
    case ModelRemoveMessage(_, _, _) => r == ModelResource
    case ModelAddLifeline(_) => r == ModelResource
    case NotationAddMessage(_, _) => r == NotationResource
    case NotationRemoveMessage(_, _) => r == NotationResource
    case NotationAddLifeline(_, _) => r == NotationResource
    case NotationRemoveLifeline(_) => r == NotationResource
    case Save(_, _) => false
  }

  /** Some change to `r` in the trace is not followed by a successful save of `r`. */
  predicate Unsaved(trace: seq<Event>, r: Resource) {
    exists k :: 0 <= k < |trace| && Alters(trace[k], r) &&
      forall j :: k < j < |trace| ==> trace[j] != Save(r, true)
  }

  function SaveError(r: Resource): InterpreterError {
    if r == ModelResource then ModelSaveFailed else NotationSaveFailed
  }

  // ---------------------------------------------------------------------------
  // The reply of a call.

  /** The last of `children` that is a reply node. */
  function LastReply(t: Tree, children: seq<nat>): (r: Option<nat>)
    requires forall k :: 0 <= k < |children| ==> children[k] < |t|
    ensures r.Some? ==> exists k :: 0 <= k < |children| && children[k] == r.value &&
                          t[r.value].isReply && forall j :: k < j < |children| ==> !t[children[j]].isReply
    ensures r.None? <==> forall k :: 0 <= k < |children| ==> !t[children[k]].isReply
  {
    if |children| == 0 then None
    else
      var last := children[|children| - 1];
      if t[last].isReply then Some(last)
      else
        var r := LastReply(t, children[..|children| - 1]);
        assert r.Some? ==> exists k :: 0 <= k < |children| - 1 && children[k] == r.value &&
                             t[r.value].isReply && forall j :: k < j < |children| ==> !t[children[j]].isReply;
        r
  }

  // ---------------------------------------------------------------------------
  // What each operation does.

  class UmlModelInterpreter {
    /**
     * Every manager call that changes a diagram, and every save, in order.
     * The read-only `getInteraction` query is not recorded.
     */
    var trace: seq<Event>
    /** Whether saving each resource succeeds (saving does I/O). */
    const modelSaveSucceeds: bool
    const notationSaveSucceeds: bool

    constructor (modelSaveSucceeds: bool, notationSaveSucceeds: bool)
      ensures trace == []
      ensures this.modelSaveSucceeds == modelSaveSucceeds && this.notationSaveSucceeds == notationSaveSucceeds
    {
      trace := [];
      this.modelSaveSucceeds := modelSaveSucceeds;
      this.notationSaveSucceeds := notationSaveSucceeds;
    }

    predicate SaveSucceeds(r: Resource) {
      if r == ModelResource then modelSaveSucceeds else notationSaveSucceeds
    }

    /** Saving `first` and then `second`; a failed save ends the operation. */
    function SaveBoth(first: Resource, second: Resource): (s: Step)
    {
      if !SaveSucceeds(first) then Step([Save(first, false)], Some(SaveError(first)))
      else if !SaveSucceeds(second) then Step([Save(first, true), Save(second, false)], Some(SaveError(second)))
      else Step([Save(first, true), Save(second, true)], None)
    }

    function MessageAddStep(t: Tree, change: Change, base: nat): (s: Step)
      requires WellFormed(t) && change.newValue < |t|
    {
      var i := change.newValue;
      if t[i].createEdge.edgeType == Return then Step([], None)
      else
        match LastReply(t, t[i].children)
        case None => Step([], Some(MissingReturnMessage(t[i].createEdge.name)))
        case Some(reply) =>
          var saves := SaveBoth(ModelResource, NotationResource);
          Step([ModelAddMessage(i, reply), NotationAddMessage(i, base)] + saves.events, saves.error)
    }

    function MessageRemoveStep(t: Tree, change: Change, base: nat): (s: Step)
      requires WellFormed(t) && change.newValue < |t|
    {
      var i := change.newValue;
      if t[i].createEdge.edgeType == Return then Step([], None)
      else
        match LastReply(t, t[i].children)
        case None => Step([], Some(MissingReturnMessage(t[i].createEdge.name)))
        case Some(reply) =>
          var saves := SaveBoth(NotationResource, ModelResource);
          Step([NotationRemoveMessage(i, reply), ModelRemoveMessage(i, reply, base)] + saves.events, saves.error)
    }

    function LifelineAddStep(change: Change, base: nat): (s: Step)
    {
      var saves := SaveBoth(ModelResource, NotationResource);
      Step([ModelAddLifeline(change.newValue), NotationAddLifeline(change.newValue, base)] + saves.events, saves.error)
    }

    function LifelineRemoveStep(change: Change): (s: Step)
    {
      Step([NotationRemoveLifeline(change.newValue)], None)
    }

    function FinalizeStep(): (s: Step)
    {
      SaveBoth(ModelResource, NotationResource)
    }

    // -------------------------------------------------------------------------
    // The operations.

    /** The reply node among `children`: the last one that is a reply. */
    method FindReturn(t: Tree, children: seq<nat>) returns (reply: Option<nat>)
      requires forall k :: 0 <= k < |children| ==> children[k] < |t|
      ensures reply == LastReply(t, children)
    {
      reply := None;
      for k := 0 to |children|
        invariant reply == LastReply(t, children[..k])
      {
        assert children[..k + 1][..k] == children[..k];
        if t[children[k]].isReply {
          reply := Some(children[k]);
        }
      }
      assert children[..|children|] == children;
    }

    method StoreResource(r: Resource) returns (error: Option<InterpreterError>)
      modifies this
      ensures trace == old(trace) + [Save(r, SaveSucceeds(r))]
      ensures error == if SaveSucceeds(r) then None else Some(SaveError(r))
    {
      trace := trace + [Save(r, SaveSucceeds(r))];
      error := if SaveSucceeds(r) then None else Some(SaveError(r));
    }

    method StoreBoth(first: Resource, second: Resource) returns (error: Option<InterpreterError>)
      modifies this
      ensures trace == old(trace) + SaveBoth(first, second).events
      ensures error == SaveBoth(first, second).error
    {
      error := StoreResource(first);
      if error.None? {
        error := StoreResource(second);
      }
    }

    method InterpretMessageAdd(t: Tree, change: Change) returns (error: Option<InterpreterError>)
      requires WellFormed(t) && change.newValue < |t|
      modifies this
      ensures trace == old(trace) + MessageAddStep(t, change, |old(trace)|).events
      ensures error == MessageAddStep(t, change, |old(trace)|).error
    {
      var i := change.newValue;
      if t[i].createEdge.edgeType == Return {
        return None;
      }
      var reply := FindReturn(t, t[i].children);
      if reply.None? {
        return Some(MissingReturnMessage(t[i].createEdge.name));
      }
      var modelSet := |trace|;
      trace := trace + [ModelAddMessage(i, reply.value)];
      trace := trace + [NotationAddMessage(i, modelSet)];
      error := StoreBoth(ModelResource, NotationResource);
    }

    method InterpretLifelineAdd(change: Change) returns (error: Option<InterpreterError>)
      modifies this
      ensures trace == old(trace) + LifelineAddStep(change, |old(trace)|).events
      ensures error == LifelineAddStep(change, |old(trace)|).error
    {
      var newLifeline := |trace|;
      trace := trace + [ModelAddLifeline(change.newValue)];
      trace := trace + [NotationAddLifeline(change.newValue, newLifeline)];
      error := StoreBoth(ModelResource, NotationResource);
    }

    method InterpretMessageRemove(t: Tree, change: Change) returns (error: Option<InterpreterError>)
      requires WellFormed(t) && change.newValue < |t|
      modifies this
      ensures trace == old(trace) + MessageRemoveStep(t, change, |old(trace)|).events
      ensures error == MessageRemoveStep(t, change, |old(trace)|).error
    {
      var i := change.newValue;
      if t[i].createEdge.edgeType == Return {
        return None;
      }
      var reply := FindReturn(t, t[i].children);
      if reply.None? {
        return Some(MissingReturnMessage(t[i].createEdge.name));
      }
      var modelSet := |trace|;
      trace := trace + [NotationRemoveMessage(i, reply.value)];
      trace := trace + [ModelRemoveMessage(i, reply.value, modelSet)];
      error := StoreBoth(NotationResource, ModelResource);
    }

    method InterpretMessageModify(change: Change) returns (error: Option<InterpreterError>)
      ensures error == None
    {
      error := None;
    }

    method InterpretLifelineRemove(change: Change) returns (error: Option<InterpreterError>)
      modifies this
      ensures trace == old(trace) + LifelineRemoveStep(change).events
      ensures error == LifelineRemoveStep(change).error
    {
      trace := trace + [NotationRemoveLifeline(change.newValue)];
      error := None;
    }

    method FinalizeInterpretation() returns (error: Option<InterpreterError>)
      modifies this
      ensures trace == old(trace) + FinalizeStep().events
      ensures error == FinalizeStep().error
    {
      error := StoreBoth(ModelResource, NotationResource);
    }

    // -------------------------------------------------------------------------
    // What the steps promise.

    /** A saving sequence writes `first` and then `second`, stopping at the first failure. */
    lemma SaveBothOutcome(first: Resource, second: Resource)
      ensures var s := SaveBoth(first, second);
              && 1 <= |s.events| <= 2
              && s.events[0] == Save(first, SaveSucceeds(first))
              && (|s.events| == 2 <==> SaveSucceeds(first))
              && (|s.events| == 2 ==> s.events[1] == Save(second, SaveSucceeds(second)))
              && (s.error.None? <==> SaveSucceeds(first) && SaveSucceeds(second))
              && (!SaveSucceeds(first) ==> s.error == Some(SaveError(first)))
              && (SaveSucceeds(first) && !SaveSucceeds(second) ==> s.error == Some(SaveError(second)))
    {
    }

    /** A message add or remove for a RETURN edge calls no manager and saves nothing. */
    lemma ReturnEdgeIsIgnored(t: Tree, change: Change, base: nat)
      requires WellFormed(t) && change.newValue < |t|
      requires t[change.newValue].createEdge.edgeType == Return
      ensures MessageAddStep(t, change, base) == Step([], None)
      ensures MessageRemoveStep(t, change, base) == Step([], None)
    {
    }

    /**
     * A call without a reply child fails, naming its message, before any
     * manager call or save; a call with one proceeds with its last reply child.
     */
    lemma MissingReplyFailsFirst(t: Tree, change: Change, base: nat)
      requires WellFormed(t) && change.newValue < |t|
      requires t[change.newValue].createEdge.edgeType != Return
      ensures var i := change.newValue;
              var noReply := forall k :: 0 <= k < |t[i].children| ==> !t[t[i].children[k]].isReply;
              && (noReply ==> MessageAddStep(t, change, base) == Step([], Some(MissingReturnMessage(t[i].createEdge.name))))
              && (noReply ==> MessageRemoveStep(t, change, base) == Step([], Some(MissingReturnMessage(t[i].createEdge.name))))
              && (!noReply ==> MessageAddStep(t, change, base).events != [] && MessageRemoveStep(t, change, base).events != [])
    {
    }

    /**
     * A message add calls the model first, then the notation with the model's
     * result, then saves the model and then the notation; it fails exactly when
     * a save does.
     */
    lemma MessageAddOrder(t: Tree, change: Change, base: nat)
      requires WellFormed(t) && change.newValue < |t|
      requires t[change.newValue].createEdge.edgeType != Return
      requires LastReply(t, t[change.newValue].children).Some?
      ensures var i := change.newValue;
              var reply := LastReply(t, t[i].children).value;
              var s := MessageAddStep(t, change, base);
              && t[reply].isReply
              && |s.events| >= 3
              && s.events[0] == ModelAddMessage(i, reply)
              && s.events[1] == NotationAddMessage(i, base)
              && s.events[2] == Save(ModelResource, modelSaveSucceeds)
              && (|s.events| == 4 <==> modelSaveSucceeds)
              && (|s.events| == 4 ==> s.events[3] == Save(NotationResource, notationSaveSucceeds))
              && (s.error.None? <==> modelSaveSucceeds && notationSaveSucceeds)
    {
      SaveBothOutcome(ModelResource, NotationResource);
    }

    /**
     * A message remove calls the notation first, then the model with the
     * notation's result, then saves the notation and then the model.
     */
    lemma MessageRemoveOrder(t: Tree, change: Change, base: nat)
      requires WellFormed(t) && change.newValue < |t|
      requires t[change.newValue].createEdge.edgeType != Return
      requires LastReply(t, t[change.newValue].children).Some?
      ensures var i := change.newValue;
              var reply := LastReply(t, t[i].children).value;
              var s := MessageRemoveStep(t, change, base);
              && t[reply].isReply
              && |s.events| >= 3
              && s.events[0] == NotationRemoveMessage(i, reply)
              && s.events[1] == ModelRemoveMessage(i, reply, base)
              && s.events[2] == Save(NotationResource, notationSaveSucceeds)
              && (|s.events| == 4 <==> notationSaveSucceeds)
              && (|s.events| == 4 ==> s.events[3] == Save(ModelResource, modelSaveSucceeds))
              && (s.error.None? <==> modelSaveSucceeds && notationSaveSucceeds)
    {
      SaveBothOutcome(NotationResource, ModelResource);
    }

    /** A lifeline add creates the model lifeline, then its view, then saves model and notation. */
    lemma LifelineAddOrder(change: Change, base: nat)
      ensures var s := LifelineAddStep(change, base);
              && |s.events| >= 3
              && s.events[0] == ModelAddLifeline(change.newValue)
              && s.events[1] == NotationAddLifeline(change.newValue, base)
              && s.events[2] == Save(ModelResource, modelSaveSucceeds)
              && (|s.events| == 4 ==> s.events[3] == Save(NotationResource, notationSaveSucceeds))
              && (s.error.None? <==> modelSaveSucceeds && notationSaveSucceeds)
    {
      SaveBothOutcome(ModelResource, NotationResource);
    }

    /** After a successful save of both resources nothing earlier is left unsaved. */
    lemma {:induction false} SavedBothLeavesNothingUnsaved(trace: seq<Event>, first: Resource, second: Resource)
      requires first != second && SaveBoth(first, second).error.None?
      ensures forall r :: !Unsaved(trace + SaveBoth(first, second).events, r)
    {
      var full := trace + SaveBoth(first, second).events;
      forall r
        ensures !Unsaved(full, r)
      {
        var last := if r == first then |full| - 2 else |full| - 1;
        assert full[last] == Save(r, true);
        forall k | 0 <= k < |full| && Alters(full[k], r)
          ensures exists j :: k < j < |full| && full[j] == Save(r, true)
        {
          assert k < last;
        }
      }
    }

    /**
     * A message add, message remove or lifeline add that succeeds leaves
     * neither the model nor the notation with unsaved changes.
     */
    lemma SucceededStepsLeaveNothingUnsaved(t: Tree, change: Change, trace: seq<Event>)
      requires WellFormed(t) && change.newValue < |t|
      requires t[change.newValue].createEdge.edgeType != Return
      ensures MessageAddStep(t, change, |trace|).error.None? ==>
                forall r :: !Unsaved(trace + MessageAddStep(t, change, |trace|).events, r)
      ensures MessageRemoveStep(t, change, |trace|).error.None? ==>
                forall r :: !Unsaved(trace + MessageRemoveStep(t, change, |trace|).events, r)
      ensures LifelineAddStep(change, |trace|).error.None? ==>
                forall r :: !Unsaved(trace + LifelineAddStep(change, |trace|).events, r)
    {
      var i := change.newValue;
      var reply := LastReply(t, t[i].children);
      if reply.Some? {
        var s := MessageAddStep(t, change, |trace|);
        if s.error.None? {
          var pre := trace + [ModelAddMessage(i, reply.value), NotationAddMessage(i, |trace|)];
          SavedBothLeavesNothingUnsaved(pre, ModelResource, NotationResource);
          assert trace + s.events == pre + SaveBoth(ModelResource, NotationResource).events;
        }
        var m := MessageRemoveStep(t, change, |trace|);
        if m.error.None? {
          var pre := trace + [NotationRemoveMessage(i, reply.value), ModelRemoveMessage(i, reply.value, |trace|)];
          SavedBothLeavesNothingUnsaved(pre, NotationResource, ModelResource);
          assert trace + m.events == pre + SaveBoth(NotationResource, ModelResource).events;
        }
      }
      var l := LifelineAddStep(change, |trace|);
      if l.error.None? {
        var pre := trace + [ModelAddLifeline(i), NotationAddLifeline(i, |trace|)];
        SavedBothLeavesNothingUnsaved(pre, ModelResource, NotationResource);
        assert trace + l.events == pre + SaveBoth(ModelResource, NotationResource).events;
      }
    }

    /** A successful finalisation leaves nothing unsaved, whatever came before. */
    lemma FinalizeSavesEverything(trace: seq<Event>)
      requires FinalizeStep().error.None?
      ensures forall r :: !Unsaved(trace + FinalizeStep().events, r)
    {
      SavedBothLeavesNothingUnsaved(trace, ModelResource, NotationResource);
    }

    /**
     * A lifeline removal only removes the view: it makes no model call and no
     * save, never fails, and leaves the notation with an unsaved change.
     */
    lemma LifelineRemoveTouchesOnlyNotation(change: Change, trace: seq<Event>)
      ensures var s := LifelineRemoveStep(change);
              && s.error.None?
              && (forall k :: 0 <= k < |s.events| ==> !Alters(s.events[k], ModelResource) && !s.events[k].Save?)
              && Unsaved(trace + s.events, NotationResource)
    {
      var full := trace + LifelineRemoveStep(change).events;
      assert Alters(full[|full| - 1], NotationResource);
    }
  }
}
