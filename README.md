# Change interpretation for UML sequence diagrams, in Dafny

This project models the interpreter core of fiit-dp-project. That core applies a change log to a UML sequence diagram and its notation. A change log is the list of changes that comparing two diagram versions produced. The model covers four parts, one module each.

- **Layout engine** (`NotationBounds`, over `Notation` and `Graph`). This is `NotationBoundsManager`. It decides:
  - where a new lifeline goes;
  - the rectangle of a new execution specification;
  - the rectangles of a new fragment and a combined fragment.

  It finds the execution views of a call node, walks up the parent chain growing the ancestors' executions, moves everything below an insertion point down, and stretches a fragment. The compartment is a sequence of views. Each view holds an element, a rectangle and child views. A call node graph is an arena of nodes addressed by index. The lookups read only the *shape* (kinds and message names), never a rectangle, so they are written over `Shape`. The operations that change rectangles in place are methods of the class `NotationBoundsManager`, which owns the compartment.
- **Per-change protocol** (`UmlInterpreter`). This is `UmlModelInterpreter`, one handler per change kind. The model and notation managers are abstract. Each call on them, and each resource save, is one event of a trace that the class extends. What a call returns is named by the position of the event that produced it.
- **Batch dispatch** (`Dispatch`). This is `InterpreterService`. It makes five passes over the log in the fixed kind order MESSAGE_REMOVE, LIFELINE_ADD, MESSAGE_ADD, MESSAGE_MODIFY, LIFELINE_REMOVE:
  - removals are visited last to first, and every other kind first to last;
  - each matching change goes to the UML interpreter and then to the change-log file interpreter;
  - both interpreters are then finalised.

  Which calls throw is a parameter, the set `fails`. A throwing call ends the batch: it is recorded, and nothing after it happens.
- **Admission rule** (`LifelineRule`). This is `MaximumLifelineRule`. It parses `lifeline.max` as `Integer.valueOf` does and computes the projected lifeline count in wrapping 32-bit `int` arithmetic. It rejects the change when that count exceeds the maximum. It throws a `SynchRuleException` naming the rule class on a bad or an inaccessible configuration.

Java `null` dereferences that the code can reach are results (`Outcome.NullPointer`, `Failure.NullPointer`), not preconditions. The places are:
- the start lookup reaching a node without a parent (`StartIn`, NotationBoundsManager.java:211);
- a start centred on the parent's lifeline when there is no parent, and a missing lifeline view when centring (`LifelineCentreX`, lines 265-272);
- the sibling's missing start view when placing a self call or a start beside it (`ActionExecutionPositionX`, lines 242-243 and 255-256);
- the sibling's missing start view when computing the top (`NewExecY`, inside `CreateExecBounds`, lines 108-109);
- the node's missing start view in `extractFragmentBounds` (lines 130-131);
- the missing fragment view in `extractCombinedFragmentBounds` (lines 146-147);
- a null new value whose name the rejection log of `MaximumLifelineRule` reads (`ValidateChange`, MaximumLifelineRule.java:38).

Java's truncating `int` division appears as `JavaHalf`. GMF leaves the width of a new `Bounds` at its unset value −1, and `createExecBounds` never sets it.

The rectangle lookups `getNodeExecutionOccurrenceStartBounds` and `getNodeExecutionOccurrenceEndBounds` (NotationBoundsManager.java:163-177) are the functions `StartBounds` and `EndBounds`.

## Model

| member | source | states |
|---|---|---|
| Notation.NthStart | com.mlyncar.dp.interpreter/src/com/mlyncar/dp/interpreter/core/impl/manager/NotationBoundsManager.java:186-202 | the index found is an execution view started by the message with exactly `skip` such views before it; none is found only when there are at most `skip` of them |
| Notation.LifelineViewIndex | com.mlyncar.dp.interpreter/src/com/mlyncar/dp/interpreter/core/impl/manager/NotationBoundsManager.java:180-183 | the view found is a compartment child for the lifeline of that name; none is found only when no child is |
| Notation.FragmentViewIndex | com.mlyncar.dp.interpreter/src/com/mlyncar/dp/interpreter/core/impl/manager/NotationBoundsManager.java:146 | the view found is the combined fragment of that name; none is found only when no child is |
| Notation.StartIn | com.mlyncar.dp.interpreter/src/com/mlyncar/dp/interpreter/core/impl/manager/NotationBoundsManager.java:210-234 | a start view found for a node is an execution view on a lifeline view |
| Notation.EndIn | com.mlyncar.dp.interpreter/src/com/mlyncar/dp/interpreter/core/impl/manager/NotationBoundsManager.java:179-208 | an end view found for a node is an execution view on a lifeline view |
| Notation.ExecutionStart | com.mlyncar.dp.interpreter/src/com/mlyncar/dp/interpreter/core/impl/manager/NotationBoundsManager.java:210-234 | the start view found for a node on a compartment is an existing execution view |
| Notation.ExecutionEnd | com.mlyncar.dp.interpreter/src/com/mlyncar/dp/interpreter/core/impl/manager/NotationBoundsManager.java:179-208 | the end view found for a node on a compartment is an existing execution view |
| Notation.ExecutionStartOnParentLifeline | com.mlyncar.dp.interpreter/src/com/mlyncar/dp/interpreter/core/impl/manager/NotationBoundsManager.java:210-234 | on the parent's lifeline, the start is the first execution started by the node's message; with none there, it is the left sibling's start, else the parent's |
| Notation.ExecutionEndOnOwnLifeline | com.mlyncar.dp.interpreter/src/com/mlyncar/dp/interpreter/core/impl/manager/NotationBoundsManager.java:179-208 | on the node's own lifeline, the end is the first matching execution, or the second one for a self message; with too few matches, it is the left sibling's end, or nothing |
| Notation.ExecutionStartOfRoot | com.mlyncar.dp.interpreter/src/com/mlyncar/dp/interpreter/core/impl/manager/NotationBoundsManager.java:211 | a start lookup at a node without a parent dereferences null |
| Notation.ExecutionLookupsWithoutLifelineView | com.mlyncar.dp.interpreter/src/com/mlyncar/dp/interpreter/core/impl/manager/NotationBoundsManager.java:179-214 | without a view for the node's lifeline the end lookup finds nothing; without one for the parent's lifeline the start lookup finds nothing and does not crash |
| Notation.LastLifelineIndex | com.mlyncar.dp.interpreter/src/com/mlyncar/dp/interpreter/core/impl/manager/NotationBoundsManager.java:32-39 | the index found is a lifeline view with no lifeline view after it; none is found only when the compartment has no lifeline view |
| Notation.LifelinePosition | com.mlyncar.dp.interpreter/src/com/mlyncar/dp/interpreter/core/impl/manager/NotationBoundsManager.java:29-42 | a new lifeline goes 150 right of the last lifeline view, or at 0 when the compartment has none |
| Notation.LifelinePositionIgnoresSizes | com.mlyncar.dp.interpreter/src/com/mlyncar/dp/interpreter/core/impl/manager/NotationBoundsManager.java:29-42 | only the view kinds and the X of the views decide the placement |
| Notation.AppendedLifelinePosition | com.mlyncar.dp.interpreter/src/com/mlyncar/dp/interpreter/core/impl/manager/NotationBoundsManager.java:37 | a lifeline appended at the computed position moves the next position exactly 150 to the right |
| Notation.ThreeLifelinesFromEmpty | com.mlyncar.dp.interpreter/src/com/mlyncar/dp/interpreter/core/impl/manager/NotationBoundsManager.java:29-42 | three lifelines added one by one to an empty compartment go to 0, 150 and 300 |
| Notation.JavaHalf | com.mlyncar.dp.interpreter/src/com/mlyncar/dp/interpreter/core/impl/manager/NotationBoundsManager.java:270-272 | `w / 2` rounds toward zero: the remainder is 0 or 1 for non-negative widths and 0 or −1 for negative ones |
| NotationBounds.StartBounds | com.mlyncar.dp.interpreter/src/com/mlyncar/dp/interpreter/core/impl/manager/NotationBoundsManager.java:163-169 | the start rectangle crashes exactly when the start lookup does, is absent exactly when no start view is found, and otherwise is that view's rectangle |
| NotationBounds.EndBounds | com.mlyncar.dp.interpreter/src/com/mlyncar/dp/interpreter/core/impl/manager/NotationBoundsManager.java:171-177 | the end rectangle is absent exactly when no end view is found, and otherwise is that view's rectangle |
| NotationBounds.LifelineCentreX | com.mlyncar.dp.interpreter/src/com/mlyncar/dp/interpreter/core/impl/manager/NotationBoundsManager.java:261-272 | centring on a lifeline succeeds exactly when the owner exists (the node for an end, its parent for a start) and has a lifeline view |
| NotationBounds.ActionExecutionPositionX | com.mlyncar.dp.interpreter/src/com/mlyncar/dp/interpreter/core/impl/manager/NotationBoundsManager.java:236-273 | without a sibling X is the lifeline centre; with one, a self call or a start succeeds exactly when the sibling's start view exists, and an end succeeds when the sibling's end view exists or else the centring does |
| NotationBounds.NewExecY | com.mlyncar.dp.interpreter/src/com/mlyncar/dp/interpreter/core/impl/manager/NotationBoundsManager.java:107-118 | below a sibling the top exists exactly when the sibling's start view does; under a parent it exists unless the parent's lookup crashes, and is 30 when the parent has no start view |
| NotationBounds.CreateExecBounds | com.mlyncar.dp.interpreter/src/com/mlyncar/dp/interpreter/core/impl/manager/NotationBoundsManager.java:91-126 | a new execution rectangle has the X that `getActionExecutionPositionX` gives, the unset width, and the height of a start view, or of an end view only when `isEnd`; a null dereference in the X rule or in finding the sibling or parent start crashes the whole call |
| NotationBounds.CreateExecBoundsAtRoot | com.mlyncar.dp.interpreter/src/com/mlyncar/dp/interpreter/core/impl/manager/NotationBoundsManager.java:102-106 | with neither sibling nor parent, a start crashes on the missing parent; an end is placed exactly when its lifeline view exists, at Y 30 with height 50, because the early return skips the end adjustment |
| NotationBounds.CreateExecBoundsBelowSibling | com.mlyncar.dp.interpreter/src/com/mlyncar/dp/interpreter/core/impl/manager/NotationBoundsManager.java:107-124 | with a left sibling, Y is the sibling start's Y plus its height plus 30, plus 5 for an end; the height is 40 for an end and 50 for a start |
| NotationBounds.CreateExecBoundsUnderParent | com.mlyncar.dp.interpreter/src/com/mlyncar/dp/interpreter/core/impl/manager/NotationBoundsManager.java:110-124 | with only a parent, Y is the parent start's Y plus 30, or 30 when the parent has no start view, plus 5 for an end |
| NotationBounds.EndBoundsNestInStartBounds | com.mlyncar.dp.interpreter/src/com/mlyncar/dp/interpreter/core/impl/manager/NotationBoundsManager.java:119-124 | with a sibling or a parent, the end rectangle lies 5 inside the start rectangle at the top and at the bottom |
| NotationBounds.ActionExecutionPositionXRules | com.mlyncar.dp.interpreter/src/com/mlyncar/dp/interpreter/core/impl/manager/NotationBoundsManager.java:236-273 | X cases with a sibling: a self call is the sibling start's X plus 7; an end is the sibling end's X when that exists; a start is the sibling start's X. Every other case centres on a lifeline |
| NotationBounds.LifelineCentreXRule | com.mlyncar.dp.interpreter/src/com/mlyncar/dp/interpreter/core/impl/manager/NotationBoundsManager.java:261-272 | centring uses the node's lifeline for an end and the parent's for a start: half the width, truncated, less 8 except for the end of a self call; a missing view or parent dereferences null |
| NotationBounds.ExtractFragmentBounds | com.mlyncar.dp.interpreter/src/com/mlyncar/dp/interpreter/core/impl/manager/NotationBoundsManager.java:128-142 | a fragment is built exactly when the node's start view exists, and starts 50 left of the lifeline |
| NotationBounds.FragmentEdges | com.mlyncar.dp.interpreter/src/com/mlyncar/dp/interpreter/core/impl/manager/NotationBoundsManager.java:128-142 | a fragment is built exactly when the node's start view exists. It begins 50 left of the lifeline and ends 50 left of the next lifeline position. Its top is the lifeline's Y plus the start view's Y plus 10, and it is 20 taller than the start view |
| NotationBounds.ExtractCombinedFragmentBounds | com.mlyncar.dp.interpreter/src/com/mlyncar/dp/interpreter/core/impl/manager/NotationBoundsManager.java:144-154 | the result exists exactly when the fragment view does. Its margins around the fragment view are 50 on each side, 10 above and 20 below, so it strictly encloses the view |
| NotationBounds.FragmentResized | com.mlyncar.dp.interpreter/src/com/mlyncar/dp/interpreter/core/impl/manager/NotationBoundsManager.java:156-161 | the resize keeps the fragment's corner, element and children, and leaves every other view as it was |
| NotationBounds.FragmentResizeReachesLifelinePosition | com.mlyncar.dp.interpreter/src/com/mlyncar/dp/interpreter/core/impl/manager/NotationBoundsManager.java:156-161 | resizing keeps the fragment's corner, ends it at the next lifeline position (which does not move) and grows it by the action's height plus 20; no other view changes |
| NotationBounds.ShiftBelow | com.mlyncar.dp.interpreter/src/com/mlyncar/dp/interpreter/core/impl/manager/NotationBoundsManager.java:61-89 | the shift changes rectangles only, never the views, their kinds or their children |
| NotationBounds.ShiftBelowMovesOnlyLowerViews | com.mlyncar.dp.interpreter/src/com/mlyncar/dp/interpreter/core/impl/manager/NotationBoundsManager.java:61-89 | only the Y of combined fragments and executions strictly below the reference changes, by exactly `newHeight`; X, widths, heights and other views stay |
| NotationBounds.ShiftBelowKeepsSides | com.mlyncar.dp.interpreter/src/com/mlyncar/dp/interpreter/core/impl/manager/NotationBoundsManager.java:70-85 | a downward shift moves no view across the reference and never moves a view up |
| NotationBounds.ShiftBelowUndone | com.mlyncar.dp.interpreter/src/com/mlyncar/dp/interpreter/core/impl/manager/NotationBoundsManager.java:61-89 | shifting down and then back up from the moved reference restores the compartment |
| NotationBounds.GrowAtEffect | com.mlyncar.dp.interpreter/src/com/mlyncar/dp/interpreter/core/impl/manager/NotationBoundsManager.java:52-53 | growing one execution view changes its height by `dh` and no other rectangle |
| NotationBounds.Adjusted | com.mlyncar.dp.interpreter/src/com/mlyncar/dp/interpreter/core/impl/manager/NotationBoundsManager.java:44-59 | the parent walk changes rectangles only, never the views or their kinds |
| NotationBounds.AdjustWalk | com.mlyncar.dp.interpreter/src/com/mlyncar/dp/interpreter/core/impl/manager/NotationBoundsManager.java:44-59 | the shape-only parent walk takes at most as many steps as the node's index (it always terminates) and does nothing at a root |
| NotationBounds.AdjustWalkGrowsOwnViews | com.mlyncar.dp.interpreter/src/com/mlyncar/dp/interpreter/core/impl/manager/NotationBoundsManager.java:47-53 | each step grows exactly the start and end views that the two lookups find for its own node |
| NotationBounds.AdjustWalkStops | com.mlyncar.dp.interpreter/src/com/mlyncar/dp/interpreter/core/impl/manager/NotationBoundsManager.java:45-50 | the walk stops at the node after its last step: it crashes exactly when that node has a parent and its start lookup dereferences null, and otherwise that node is the root or lacks a start or end view |
| NotationBounds.AdjustWalkClimbs | com.mlyncar.dp.interpreter/src/com/mlyncar/dp/interpreter/core/impl/manager/NotationBoundsManager.java:44-59 | the walk starts at the given node and each step is at the previous node's parent. Every visited node has a parent, so the root is never adjusted, and both views of a step are execution views |
| NotationBounds.AdjustedFollowsWalk | com.mlyncar.dp.interpreter/src/com/mlyncar/dp/interpreter/core/impl/manager/NotationBoundsManager.java:45-58 | the walk on a compartment grows exactly the views that its shape-only walk names, and crashes exactly when that walk does |
| NotationBounds.AdjustedHeights | com.mlyncar.dp.interpreter/src/com/mlyncar/dp/interpreter/core/impl/manager/NotationBoundsManager.java:44-59 | each execution view grows by `dh` once per time the walk names it; compartment-child rectangles do not change |
| NotationBounds.AdjustedUndone | com.mlyncar.dp.interpreter/src/com/mlyncar/dp/interpreter/core/impl/manager/NotationBoundsManager.java:44-59 | growing the ancestors by `dh` and then by `-dh` restores the compartment |
| NotationBounds.NotationBoundsManager.CalculateLifelinePosition | com.mlyncar.dp.interpreter/src/com/mlyncar/dp/interpreter/core/impl/manager/NotationBoundsManager.java:29-42 | the backward scan returns the placement rule's position |
| NotationBounds.NotationBoundsManager.GetNodeExecutionNotationStart | com.mlyncar.dp.interpreter/src/com/mlyncar/dp/interpreter/core/impl/manager/NotationBoundsManager.java:210-234 | the loop and recursion find the start view `ExecutionStart` describes |
| NotationBounds.NotationBoundsManager.GetNodeExecutionNotationEnd | com.mlyncar.dp.interpreter/src/com/mlyncar/dp/interpreter/core/impl/manager/NotationBoundsManager.java:179-208 | the loop, with its skipped first self match, and the recursion find the end view `ExecutionEnd` describes |
| NotationBounds.NotationBoundsManager.AdjustParentExecSpecs | com.mlyncar.dp.interpreter/src/com/mlyncar/dp/interpreter/core/impl/manager/NotationBoundsManager.java:44-59 | the new compartment and the crash flag are those of the parent walk `Adjusted` on the old compartment |
| NotationBounds.NotationBoundsManager.MoveActionSpecs | com.mlyncar.dp.interpreter/src/com/mlyncar/dp/interpreter/core/impl/manager/NotationBoundsManager.java:61-89 | the nested loops leave the compartment shifted as `ShiftBelow` describes |
| NotationBounds.NotationBoundsManager.UpdateFragmentSize | com.mlyncar.dp.interpreter/src/com/mlyncar/dp/interpreter/core/impl/manager/NotationBoundsManager.java:156-161 | the fragment view is resized as `FragmentResized` describes; nothing else changes |
| UmlInterpreter.LastReply | com.mlyncar.dp.interpreter/src/com/mlyncar/dp/interpreter/core/impl/UmlModelInterpreter.java:38-43 | the node found is a reply child with no reply child after it; none is found exactly when no child is a reply |
| UmlInterpreter.UmlModelInterpreter.FindReturn | com.mlyncar.dp.interpreter/src/com/mlyncar/dp/interpreter/core/impl/UmlModelInterpreter.java:38-43 | the loop keeps the last reply child seen |
| UmlInterpreter.UmlModelInterpreter.StoreResource | com.mlyncar.dp.interpreter/src/com/mlyncar/dp/interpreter/core/impl/UmlModelInterpreter.java:107-121 | one save is recorded; it fails with that resource's error exactly when the save does |
| UmlInterpreter.UmlModelInterpreter.InterpretMessageAdd | com.mlyncar.dp.interpreter/src/com/mlyncar/dp/interpreter/core/impl/UmlModelInterpreter.java:31-53 | the trace grows by the events of a message add and the error is that step's error |
| UmlInterpreter.UmlModelInterpreter.InterpretLifelineAdd | com.mlyncar.dp.interpreter/src/com/mlyncar/dp/interpreter/core/impl/UmlModelInterpreter.java:55-62 | the trace grows by the events of a lifeline add and the error is that step's error |
| UmlInterpreter.UmlModelInterpreter.InterpretMessageRemove | com.mlyncar.dp.interpreter/src/com/mlyncar/dp/interpreter/core/impl/UmlModelInterpreter.java:64-84 | the trace grows by the events of a message remove and the error is that step's error |
| UmlInterpreter.UmlModelInterpreter.InterpretMessageModify | com.mlyncar.dp.interpreter/src/com/mlyncar/dp/interpreter/core/impl/UmlModelInterpreter.java:86-90 | a modification does nothing and never fails |
| UmlInterpreter.UmlModelInterpreter.InterpretLifelineRemove | com.mlyncar.dp.interpreter/src/com/mlyncar/dp/interpreter/core/impl/UmlModelInterpreter.java:92-99 | a lifeline removal records only the notation removal and never fails |
| UmlInterpreter.UmlModelInterpreter.FinalizeInterpretation | com.mlyncar.dp.interpreter/src/com/mlyncar/dp/interpreter/core/impl/UmlModelInterpreter.java:101-105 | finalisation records the saves of the model and then the notation |
| UmlInterpreter.UmlModelInterpreter.SaveBothOutcome | com.mlyncar.dp.interpreter/src/com/mlyncar/dp/interpreter/core/impl/UmlModelInterpreter.java:107-121 | two saves in a row: the second happens only if the first succeeds; the error is the first failing resource's, and there is none exactly when both succeed |
| UmlInterpreter.UmlModelInterpreter.ReturnEdgeIsIgnored | com.mlyncar.dp.interpreter/src/com/mlyncar/dp/interpreter/core/impl/UmlModelInterpreter.java:33-35 | a message add or remove for a RETURN edge makes no call and no save and succeeds |
| UmlInterpreter.UmlModelInterpreter.MissingReplyFailsFirst | com.mlyncar.dp.interpreter/src/com/mlyncar/dp/interpreter/core/impl/UmlModelInterpreter.java:44-46 | without a reply child, a message add or remove fails with an error naming the message before any call; with one, it makes calls |
| UmlInterpreter.UmlModelInterpreter.MessageAddOrder | com.mlyncar.dp.interpreter/src/com/mlyncar/dp/interpreter/core/impl/UmlModelInterpreter.java:48-51 | a message add calls the model, then the notation with the model's result, then saves the model and then the notation; once the reply is found, its error is a save's |
| UmlInterpreter.UmlModelInterpreter.MessageRemoveOrder | com.mlyncar.dp.interpreter/src/com/mlyncar/dp/interpreter/core/impl/UmlModelInterpreter.java:80-83 | a message remove calls the notation, then the model with the notation's result, then saves the notation and then the model |
| UmlInterpreter.UmlModelInterpreter.LifelineAddOrder | com.mlyncar.dp.interpreter/src/com/mlyncar/dp/interpreter/core/impl/UmlModelInterpreter.java:57-60 | a lifeline add creates the model lifeline, passes it to the notation, then saves the model and then the notation |
| UmlInterpreter.UmlModelInterpreter.SucceededStepsLeaveNothingUnsaved | com.mlyncar.dp.interpreter/src/com/mlyncar/dp/interpreter/core/impl/UmlModelInterpreter.java:31-84 | a message add, message remove or lifeline add that succeeds leaves no unsaved change to either resource |
| UmlInterpreter.UmlModelInterpreter.FinalizeSavesEverything | com.mlyncar.dp.interpreter/src/com/mlyncar/dp/interpreter/core/impl/UmlModelInterpreter.java:101-105 | a successful finalisation leaves nothing unsaved, whatever came before |
| UmlInterpreter.UmlModelInterpreter.LifelineRemoveTouchesOnlyNotation | com.mlyncar.dp.interpreter/src/com/mlyncar/dp/interpreter/core/impl/UmlModelInterpreter.java:92-99 | a lifeline removal makes no model call and no save, and leaves the notation with an unsaved change |
| Dispatch.Rank | com.mlyncar.dp.interpreter/src/com/mlyncar/dp/interpreter/service/InterpreterService.java:32-36 | every change kind has one pass, at its rank in the fixed order |
| Dispatch.PassVisits | com.mlyncar.dp.interpreter/src/com/mlyncar/dp/interpreter/service/InterpreterService.java:42-63 | a pass visits only changes of its kind, every one of them, each once: descending when reversed, ascending otherwise |
| Dispatch.ScheduleOrder | com.mlyncar.dp.interpreter/src/com/mlyncar/dp/interpreter/service/InterpreterService.java:28-40 | the batch visits each change exactly once, earlier kinds before later ones, removals last to first and the rest first to last |
| Dispatch.UmlBeforeFile | com.mlyncar.dp.interpreter/src/com/mlyncar/dp/interpreter/service/InterpreterService.java:42-63 | each visited change goes to the UML interpreter immediately before the file interpreter, and the two finalisations come last |
| Dispatch.RunStopsAtFirstFailure | com.mlyncar.dp.interpreter/src/com/mlyncar/dp/interpreter/service/InterpreterService.java:28-40 | with no throwing call every call is made; otherwise exactly the calls up to and including the first that throws |
| Dispatch.FinalizationOnlyAfterSuccess | com.mlyncar.dp.interpreter/src/com/mlyncar/dp/interpreter/service/InterpreterService.java:28-40 | the UML interpreter is finalised exactly when no change throws, and the file interpreter exactly when, in addition, the UML finalisation does not throw |
| Dispatch.RemovalsRunBackwards | com.mlyncar.dp.interpreter/src/com/mlyncar/dp/interpreter/service/InterpreterService.java:43-52 | removals at positions 1, 2 and 3 are interpreted as 3, 2, 1, before the message add at 0 |
| Dispatch.InterpreterService.InterpretOne | com.mlyncar.dp.interpreter/src/com/mlyncar/dp/interpreter/service/InterpreterService.java:49-50 | one change goes to the UML interpreter and then, if that does not throw, to the file interpreter |
| Dispatch.InterpreterService.InterpretChangeBasedOnType | com.mlyncar.dp.interpreter/src/com/mlyncar/dp/interpreter/service/InterpreterService.java:42-63 | both loops record the run of the pass's calls and succeed exactly when none throws |
| Dispatch.InterpreterService.InterpretChanges | com.mlyncar.dp.interpreter/src/com/mlyncar/dp/interpreter/service/InterpreterService.java:28-40 | the batch records the run of all planned calls and succeeds exactly when none throws |
| LifelineRule.Total | com.mlyncar.dp.synch/src/com/mlyncar/dp/synch/rule/lifeline/MaximumLifelineRule.java:37 | the left-to-right Java `int` sum is the exact projected count wrapped to 32 bits |
| LifelineRule.ParseInt | com.mlyncar.dp.synch/src/com/mlyncar/dp/synch/rule/lifeline/MaximumLifelineRule.java:29-32 | only an optionally signed, non-empty numeral parses; an unsigned run of digits parses exactly when its value is below 2^31, and then to that value |
| LifelineRule.ParseShown | com.mlyncar.dp.synch/src/com/mlyncar/dp/synch/rule/lifeline/MaximumLifelineRule.java:29 | the decimal form of every Java `int` parses back to it |
| LifelineRule.ParsedIsNumeral | com.mlyncar.dp.synch/src/com/mlyncar/dp/synch/rule/lifeline/MaximumLifelineRule.java:29-32 | whatever parses is an optional sign followed by at least one digit |
| LifelineRule.ParseRejectsOutOfRange | com.mlyncar.dp.synch/src/com/mlyncar/dp/synch/rule/lifeline/MaximumLifelineRule.java:29-32 | numerals denoting 2^31 or more are refused unsigned or with `+`; with `-` only values above 2^31 are refused, and `-2147483648` parses |
| LifelineRule.ValidateChange | com.mlyncar.dp.synch/src/com/mlyncar/dp/synch/rule/lifeline/MaximumLifelineRule.java:19-42 | an inaccessible configuration and an unparsable value throw their two distinct errors, both naming the rule class; the rule admits exactly when the value parses and the count is at most the maximum; above the maximum it rejects a node, and the log's `getName()` dereferences a null value |
| LifelineRule.AdmitsUpToMaximum | com.mlyncar.dp.synch/src/com/mlyncar/dp/synch/rule/lifeline/MaximumLifelineRule.java:37-41 | for moderate counts it admits exactly when the projected count is at most the maximum (equality admitted) and rejects exactly when it is above |
| LifelineRule.VerdictIgnoresChange | com.mlyncar.dp.synch/src/com/mlyncar/dp/synch/rule/lifeline/MaximumLifelineRule.java:19-42 | whether a change is admitted never depends on the change; two changes bringing nodes get the same verdict |
| LifelineRule.MoreLifelinesNeverAdmit | com.mlyncar.dp.synch/src/com/mlyncar/dp/synch/rule/lifeline/MaximumLifelineRule.java:37 | more current, added or pending lifelines, or fewer removals, never turn a rejection into an admission |
| LifelineRule.WrapAroundAdmits | com.mlyncar.dp.synch/src/com/mlyncar/dp/synch/rule/lifeline/MaximumLifelineRule.java:37 | at the largest `int` count, one more lifeline wraps the sum negative and is admitted under any maximum |
| LifelineRule.MaximumThreeExample | com.mlyncar.dp.synch/src/com/mlyncar/dp/synch/rule/lifeline/MaximumLifelineRule.java:37-41 | with maximum "3" and two lifelines, one pending addition is admitted and two are rejected |

## Left out

- Managers: `NotationManager`, `ModelManager`, `ChangeLogInterpreter` and `AbstractInterpreter` are not part of this model. Their calls are recorded events that never throw. The dispatch from `interpretChange` to the per-kind handlers lives in `AbstractInterpreter` and is not modelled.
- Lookups: `getLifelineView` and `getFragmentView` are taken to return the first compartment child whose element is that lifeline or combined fragment. `getLifelineCompartment` is the compartment the manager holds.
- I/O: resource saves are events whose success is a constant of the interpreter, one per resource. The saves themselves are not modelled.
- Logging: SLF4J calls are left out. In `MaximumLifelineRule` the rejection log reads the name of the change's new value, which is statically a call node, so its `(Node)` cast cannot fail. The null dereference of that read is kept, as the `NullPointer` failure. The log in `InterpreterService` that reads `getNewValue().getName()` is left out.
- `ExecSpecNotFoundException`: no code shown raises it. Its catch at NotationBoundsManager.java:54-56 and its rethrow at 98-99 are therefore dead in the model.
- Dead branch: the extra `+ 7` for a self message at NotationBoundsManager.java:249-251 cannot run, because self messages return at 241-244. The model leaves it out.
- `extractCombinedFragmentBounds`: its `node` parameter is unused, so the model drops it.
- `NotationBounds.NotationBoundsManager.UpdateFragmentSize`: Java receives the fragment view the caller has already found. The model takes its index in the compartment, as `FragmentViewIndex` returns it, hence its `requires`.
- `extractFragmentBounds`: its lifeline node is a compartment child, given by index.
- Interpreter construction: `new ChangeLogInterpreter(...)` and `new UmlModelInterpreter(...)` at InterpreterService.java:29-30 are assumed to succeed.
- Node graph: it must not be cyclic. Parents and left siblings precede a node in the arena, which is where the Java recursion terminates.
- Change values are node indices and never null. Nulls inside the GMF/EMF object graph are modelled only where the code shown can reach them.
- Configuration: `PropertyLoader` and `StatsProviderHolder` are parameters, namely the configuration result and the five counts.
- `LifelineRule.ParseInt`: `Integer.valueOf` also accepts non-ASCII Unicode digits through `Character.digit`; the model accepts ASCII digits only.
- `LifelineRule.AdmitsUpToMaximum`: stated only for counts below 2^28, where no `int` step wraps. `LifelineRule.WrapAroundAdmits` shows what happens beyond.
- `LifelineRule.MoreLifelinesNeverAdmit`: stated only for counts below 2^28. With wrap-around, one more lifeline can turn a rejection into an admission (`LifelineRule.WrapAroundAdmits`).
- 32-bit layout arithmetic: `NotationBoundsManager` computes coordinates in Java `int`. The model does not wrap these sums: `LifelinePosition` (`+ 150`), `NewExecY` and `CreateExecBounds` (`+ 30`, `+ 5`), `LifelineCentreX` and `ActionExecutionPositionX` (`/ 2 - 8`, `+ 7`), `ExtractFragmentBounds` and `ExtractCombinedFragmentBounds` (margins), `FragmentResized` (`+ 20`), `ShiftBelow` (`+ newHeight`) and `Adjusted` (height growth) all use unbounded integers. Coordinates are taken to stay far below 2^31, so wrap-around there is left out.
- `TestMessageRule`, `TransformationService` and the comparison helpers are not part of this model.
