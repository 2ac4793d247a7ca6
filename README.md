# Conditional visibility for the ACF image-select field, in Dafny

This project models the conditional-visibility engine of the image-select field type for
Advanced Custom Fields: the `ImageSelect` class of `js/conditions-handler.js`. An
image-select field controls which other ACF fields in the same post box are shown. Each
dependent field carries a JSON condition in `data-conditions`. That condition is an array of
groups, and each group is an array of `{field, operator, value}` clauses. The engine:

1. normalises each dependent field's condition into an object with optional `and` / `or`
   buckets, each mapping an operator to its list of values, plus the element `el`
   (module `Conditions`, file `conditions.dfy`);
2. evaluates that object against the selected value (module `Evaluation`);
3. applies the verdict to the element: the `acf-hidden` class, the `hidden` and `disabled`
   attributes, and the `disabled` attribute of the controls inside it (module `Visibility`);
4. keeps the catalog of condition objects, runs the evaluation pass, attaches the change
   listener and appends the conditions of repeater rows added later (module `Engine`,
   class `ImageSelect`).

`scenarios.dfy` holds worked cases for a selector keyed `photo`.

How the JavaScript maps onto Dafny:

- The accumulator `ob` becomes a value of datatype `CondObj`. The helpers change `ob` in
  place (lines 236, 247, 261-262, 284 and 286), but every call that changes it assigns its
  result back to `ob`, and no other reference to the object is kept. The object that a
  `return {}` at line 268 drops, after lines 261-262 changed it, is never used again. So a
  value reassigned in the loop of `BuildConditionsObject` behaves like the mutated object.
- The `forEach` loops become `while` loops in methods. Each method is proved against a
  specification function (`AndStep`, `Normalise`, `BuildSpec`, `Tracked`, `ApplyEntries`,
  `Applied`), and the lemmas are stated about those functions.
- The post box is a `PostBox` object holding a map from element id to element state.
  `ImageSelect` holds the key, the post box, the selector's `value` attribute, the catalog,
  whether the change listener is attached, and the repeaters being observed.
- `buildConditionsObject` has three outcomes: `false` (`Missing`), `undefined`
  (`Undefined`), or an object (`Obj`). An object is truthy even when it is `{}`, so it is kept
  in the catalog.

The model keeps these behaviours of the code, which a reader might not expect:

- An empty but existing catalog (`[]`) still gets an evaluation pass and the change
  listener (line 8).
- A field whose clauses do not concern the selector is not dropped. It yields `{}`, or an
  object with an empty `and` bucket, and stays in the catalog.
- An object can hold both buckets. `and` is then used at dispatch, rather than the last
  group deciding the logic.
- A single-clause group about another field discards everything accumulated so far, rather
  than being ignored (`return {}` at line 268).
- In an AND-group, that same `return {}` only leaves the `forEach` callback. The element is
  still tracked, with an empty `and` bucket, so it is always shown.

## Model

| member | source | states |
|---|---|---|
| `Conditions.SetObValue` | js/conditions-handler.js:282-289 | appends `value` to the end of `ob[key][operator]`, creating `[value]` when the operator is absent; no other operator list, no other bucket and not `el` change |
| `Conditions.RecordAndValues` | js/conditions-handler.js:239-245 | after the clause loop, each operator's list in `and` is its old list followed by the values of the clauses whose `field` equals the key and that use that operator, in clause order |
| `Conditions.AndStepValues` | js/conditions-handler.js:234-249 | the same for the whole `structureAndObject` call, an absent `and` bucket counting as empty |
| `Conditions.StructureAndObject` | js/conditions-handler.js:234-249 | the clause loop computes `AndStep`: the `and` bucket exists, `or` is untouched, and `el` is the field even when no clause matched |
| `Conditions.StructureOrObject` | js/conditions-handler.js:259-271 | a group whose first element has a truthy `field` equal to the key appends its operator and value to `or` (and sets `el` when `or` was new); any other group yields `{}` |
| `Conditions.BuildConditionsObject` | js/conditions-handler.js:160-176 | yields an object iff both attributes are present and the parse gave an array; the group loop computes `Normalise` from `{}`; a tracked object's `el` is the field |
| `Conditions.NormaliseTracksField` | js/conditions-handler.js:161-172 | after any run of groups, `el` is the field exactly when a bucket exists, and is absent in `{}` |
| `Conditions.ResetDiscards` | js/conditions-handler.js:259-271 | a group that takes the `return {}` path throws away everything accumulated before it: the result is what the later groups build from `{}` |
| `Conditions.NormaliseRecords` | js/conditions-handler.js:165-171 | without such a group, `and` holds the matching clauses of all AND-groups and `or` the matching single clauses, each appended after the earlier contents in written order |
| `Conditions.AndBucketPersists` | js/conditions-handler.js:165-171 | once an AND-group has been seen, the `and` bucket survives all later groups unless one of them resets |
| `Evaluation.HandleOrConditions` | js/conditions-handler.js:82-101 | true iff some `!=` value differs from the selected value or some `==` value equals it; false when nothing is recorded (the accumulator starts as `[false]`) |
| `Evaluation.HandleAndConditions` | js/conditions-handler.js:110-125 | true iff every `!=` value differs from the selected value and every `==` value equals it; true when nothing is recorded |
| `Evaluation.AndGroupVerdict` | js/conditions-handler.js:234-249 | normalising one AND-group and dispatching gives the conjunction of its `==`/`!=` clauses about the selector; clauses about other fields do not count |
| `Evaluation.UnmatchedAndGroupShown` | js/conditions-handler.js:239-247 | an AND-group with no clause about the selector still tracks the field, and the field is shown for every value |
| `Evaluation.OrGroupsVerdict` | js/conditions-handler.js:259-271 | normalising single-clause groups about the selector and dispatching gives the disjunction of their `==`/`!=` clauses |
| `Evaluation.AndWinsOverOr` | js/conditions-handler.js:42-46 | an AND-group followed by OR-groups keeps both buckets, and the entry is judged by the `and` bucket alone |
| `Visibility.Applied` | js/conditions-handler.js:56-73 | show clears the class and both attributes and re-enables the controls under `.acf-input` that are not `[type="hidden"]`; hide sets all three and disables `select`, `textarea` and non-hidden `input` there; nothing else changes |
| `Visibility.AppliedIdempotent` | js/conditions-handler.js:56-73 | applying the same verdict twice equals applying it once |
| `Visibility.HideThenShow` | js/conditions-handler.js:62-70 | hide then show re-enables every non-hidden control under `.acf-input`, including ones that were disabled beforehand; a `select`/`textarea` with `type="hidden"` stays disabled |
| `Visibility.ApplyAllIdempotent` | js/conditions-handler.js:56-73 | applying a run of verdicts a second time changes nothing, because each control's `disabled` is set by the last verdict that touches it |
| `Engine.GetSiblingFields` | js/conditions-handler.js:132-152 | the result is `false` when the post box has no fields; otherwise it is the array of truthy condition objects in field order, plus the repeater fields to observe |
| `Engine.UntouchedWithoutEntry` | js/conditions-handler.js:41-47 | an element that no entry with a bucket points at keeps its state through the pass |
| `Engine.LastEntryDecides` | js/conditions-handler.js:41-47 | an element's class and attributes end up as the verdict of the last entry with a bucket that points at it |
| `Engine.PassIdempotent` | js/conditions-handler.js:29-47 | a second pass over the same catalog with the same value leaves the post box unchanged |
| `Engine.ImageSelect.constructor` | js/conditions-handler.js:2-9 | builds the catalog and the repeater list; the listener is attached iff the box has fields (even when the catalog is `[]`), after one pass with the checked input's value |
| `Engine.ImageSelect.SetupListeners` | js/conditions-handler.js:14-22 | one pass with the checked value runs, then the listener is attached |
| `Engine.ImageSelect.HandleConditions` | js/conditions-handler.js:29-47 | a falsy argument is replaced by the checked input's value, which is written to `value`; with nothing checked, or a `false` catalog, nothing changes; otherwise every catalog entry is dispatched in order |
| `Engine.ImageSelect.ShouldShowACFField` | js/conditions-handler.js:56-73 | a missing element is a no-op; otherwise the element becomes `Applied(shouldShow, element)` and no other element changes |
| `Engine.ImageSelect.OnChange` | js/conditions-handler.js:16-21 | the change listener writes the target's value to `value` and runs a pass with it |
| `Engine.ImageSelect.OnRowAdded` | js/conditions-handler.js:185-200 | for an `.acf-row` node, the row's truthy condition objects are appended after the existing entries, in field order, and one pass follows; other nodes change nothing |
| `Scenarios.SingleEqualityClause` | js/conditions-handler.js:259-271 | `[[photo == sunset]]`: shown for `sunset`, hidden for `forest` |
| `Scenarios.TwoInequalityClauses` | js/conditions-handler.js:234-249 | `[[photo != sunset, photo != forest]]`: hidden for `sunset`, shown for `mountain` |
| `Scenarios.RowAddedWhileSelected` | js/conditions-handler.js:193-199 | a row added while `sunset` is selected, holding a field with `[[photo == sunset]]`, is shown by the pass that follows the append |
| `Scenarios.UnparsableConditionIgnored` | js/conditions-handler.js:162-164 | a condition attribute that does not parse yields `undefined`, adds nothing to the catalog and changes no pass |
| `Scenarios.LaterUnrelatedGroupDiscardsMatch` | js/conditions-handler.js:265-269 | `[[photo == sunset], [other == x]]` normalises to `{}`, so the field is never shown or hidden |

## Left out

- DOM querying (`closest`, `querySelectorAll`, CSS selector matching) is not modelled. The post box's `.acf-field` elements are a given sequence of `Field` records, and each element is a record of its class and attribute flags plus its child controls.
- `MutationObserver`, `addEventListener` and the `DOMContentLoaded` bootstrap (lines 185-209, 16-21, 291-298) are not modelled as event plumbing. Their effect is modelled as method calls: `OnChange` and `OnRowAdded`. One `OnRowAdded` call handles one added node. The `if (e.target)` test is taken to hold.
- `JSON.parse` is a foreign call. Its result is the input `Field.parsed`, which is None when the call throws, is falsy or is not an array.
- JavaScript loose equality in `==`/`!=` (lines 86, 94, 114, 120, 240, 265) is not modelled. Fields, operators and values are strings compared exactly, and a missing `field` is None. Values that are not strings in the JSON are not modelled.
- A selector without `data-key` is not modelled. The key is then `false`, and the source compares against it with loose equality.
- The crash when the image-select field has no enclosing post box (lines 133-135) is not modelled: a post box is always given.
- A `null` group inside the condition array is not modelled. `condition[0]` throws on it. Every non-array group is modelled as a group whose first element has no `field`.
- A `null` clause inside an AND-group is not modelled. Reading `and.field` at line 240 throws on it. The exception aborts `getSiblingFields`, and with it the constructor. In the row observer it ends the whole callback. The rest of the row's fields, the pass at line 199, the other added nodes and the later mutation records of that batch (lines 186-188) are all skipped. The entries already pushed for the row's earlier fields stay in the catalog. Here every clause is a record, and `Built` has no outcome for a throw.
- A clause without a `value` is not modelled. The source records `undefined`, which no selected string equals under `==`, and which differs from every selected string under `!=`. Here `Clause.value` is always a string.
- Operator names that are `Object.prototype` properties (such as `__proto__`) are not modelled: operators are plain map keys.
- Controls shared by nested fields are not modelled. In the DOM a control inside a nested field is also a descendant of the outer field. Here each element's controls are its own, so no control is changed through two elements.
- The insertion of a row's elements into the post box is done by ACF. `OnRowAdded` requires the row's fields to be present in the post box already.
- image-select.php (field rendering, settings registration, the image directory scan) is not part of this model. It is UI, framework and filesystem plumbing.
