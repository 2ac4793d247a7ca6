/**
  * The `ImageSelect` controller: the catalog of condition objects for one image-select
  * field (`getSiblingFields`, the row observer of `setUpRepeaterListener`), the evaluation
  * pass over it (`handleConditions`, `shouldShowACFField`) and its lifecycle
  * (constructor, `setupListeners`, the change listener).
  */
module Engine {
  import opened Wrappers
  import opened Conditions
  import opened Evaluation
  import opened Visibility

  /** `this.ImageSelectSiblingFieldsConditions`: `false` when the post box has no `.acf-field`, else an array. */
  datatype Catalog = NoSiblings | Entries(list: seq<CondObj>)

  /** The condition objects a run of fields contributes: each truthy build result, in field order. */
  function Tracked(fields: seq<Field>, key: string): seq<CondObj> {
    if fields == [] then []
    else (match BuildSpec(fields[0], key) case Obj(ob) => [ob] case _ => []) + Tracked(fields[1..], key)
  }

  /** The fields carrying the `acf-field-repeater` class, in order. */
  function RepeaterIds(fields: seq<Field>): seq<ElemId> {
    if fields == [] then []
    else (if fields[0].isRepeater then [fields[0].id] else []) + RepeaterIds(fields[1..])
  }

  /** The catalog `getSiblingFields` builds from the `.acf-field` elements of the post box. */
  function SiblingCatalog(fields: seq<Field>, key: string): Catalog {
    if |fields| > 0 then Entries(Tracked(fields, key)) else NoSiblings
  }

  lemma {:induction false} TrackedAppend(a: seq<Field>, b: seq<Field>, key: string)
    ensures Tracked(a + b, key) == Tracked(a, key) + Tracked(b, key)
    ensures RepeaterIds(a + b) == RepeaterIds(a) + RepeaterIds(b)
    decreases |a|
  {
    if a != [] {
      assert (a + b)[1..] == a[1..] + b;
      TrackedAppend(a[1..], b, key);
    } else {
      assert a + b == b;
    }
  }

  /** Every element an entry points at is present in the post box. */
  predicate Resolves(es: seq<CondObj>, nodes: map<ElemId, Element>) {
    forall i :: 0 <= i < |es| && es[i].el.Some? ==> es[i].el.value in nodes
  }

  /** A tracked entry points at its own field, or at nothing (the `{}` object). */
  lemma {:induction false} TrackedPointsAtFields(fields: seq<Field>, key: string, i: nat)
    requires i < |Tracked(fields, key)|
    ensures var e := Tracked(fields, key)[i];
            e.el.Some? ==> exists j :: 0 <= j < |fields| && e.el.value == fields[j].id
    decreases |fields|
  {
    var head := match BuildSpec(fields[0], key) case Obj(ob) => [ob] case _ => [];
    var e := Tracked(fields, key)[i];
    if i < |head| {
      NormaliseTracksField(Empty, fields[0].parsed.value, fields[0].id, key);
    } else {
      TrackedPointsAtFields(fields[1..], key, i - |head|);
      if e.el.Some? {
        var j :| 0 <= j < |fields[1..]| && e.el.value == fields[1..][j].id;
        assert fields[j + 1] == fields[1..][j];
      }
    }
  }

  lemma TrackedResolves(fields: seq<Field>, key: string, nodes: map<ElemId, Element>)
    requires forall j :: 0 <= j < |fields| ==> fields[j].id in nodes
    ensures Resolves(Tracked(fields, key), nodes)
  {
    forall i | 0 <= i < |Tracked(fields, key)| && Tracked(fields, key)[i].el.Some?
      ensures Tracked(fields, key)[i].el.value in nodes
    {
      TrackedPointsAtFields(fields, key, i);
    }
  }

  /**
    * `getSiblingFields`: build every field's condition object, keep the truthy ones, and
    * collect the repeater fields to observe. With no fields at all the result is `false`.
    */
  method GetSiblingFields(fields: seq<Field>, key: string) returns (siblings: Catalog, repeaters: seq<ElemId>)
    ensures siblings == SiblingCatalog(fields, key)
    ensures repeaters == RepeaterIds(fields)
  {
    if |fields| > 0 {
      var structured: seq<CondObj> := [];
      repeaters := [];
      var i := 0;
      while i < |fields|
        invariant 0 <= i <= |fields|
        invariant structured == Tracked(fields[..i], key)
        invariant repeaters == RepeaterIds(fields[..i])
      {
        var ob := BuildConditionsObject(fields[i], key);
        if ob.Obj? {
          structured := structured + [ob.ob];
        }
        if fields[i].isRepeater {
          repeaters := repeaters + [fields[i].id];
        }
        assert fields[..i + 1] == fields[..i] + [fields[i]];
        TrackedAppend(fields[..i], [fields[i]], key);
        i := i + 1;
      }
      assert fields[..i] == fields;
      return Entries(structured), repeaters;
    }
    return NoSiblings, [];
  }

  /** One iteration of the loop in `handleConditions`. */
  function ApplyOne(nodes: map<ElemId, Element>, entry: CondObj, value: string): map<ElemId, Element> {
    match Dispatch(entry, value)
    case None => nodes
    case Some(b) =>
      if entry.el.Some? && entry.el.value in nodes then
        nodes[entry.el.value := Applied(b, nodes[entry.el.value])]
      else
        nodes
  }

  /** The post box after the loop of `handleConditions` has visited `es` in order. */
  function ApplyEntries(nodes: map<ElemId, Element>, es: seq<CondObj>, value: string): (r: map<ElemId, Element>)
    ensures r.Keys == nodes.Keys
    decreases |es|
  {
    if es == [] then nodes
    else ApplyOne(ApplyEntries(nodes, es[..|es| - 1], value), es[|es| - 1], value)
  }

  /** `!value` for the argument of `handleConditions` (`false` is None). */
  predicate Falsy(arg: Option<string>) {
    arg.None? || arg.value == ""
  }

  /** The value `handleConditions` works with: the argument, or else the checked input's. */
  function EffectiveValue(arg: Option<string>, checked: Option<string>): Option<string> {
    if Falsy(arg) then checked else arg
  }

  /** The post box after one `handleConditions` call that settled on `value`. */
  function Pass(nodes: map<ElemId, Element>, catalog: Catalog, value: Option<string>): map<ElemId, Element> {
    if value.Some? && value.value != "" && catalog.Entries? then ApplyEntries(nodes, catalog.list, value.value) else nodes
  }

  /** An element that no entry with a bucket points at keeps its state. */
  lemma {:induction false} UntouchedWithoutEntry(nodes: map<ElemId, Element>, es: seq<CondObj>, value: string, id: ElemId)
    requires id in nodes
    requires forall k :: 0 <= k < |es| ==> !(Dispatch(es[k], value).Some? && es[k].el == Some(id))
    ensures ApplyEntries(nodes, es, value)[id] == nodes[id]
    decreases |es|
  {
    if es != [] {
      var init := es[..|es| - 1];
      assert forall k :: 0 <= k < |init| ==> init[k] == es[k];
      UntouchedWithoutEntry(nodes, init, value, id);
    }
  }

  /**
    * The class and attributes of an element follow the verdict of the last entry with a
    * bucket that points at it.
    */
  lemma {:induction false} LastEntryDecides(nodes: map<ElemId, Element>, es: seq<CondObj>, value: string, k: nat, id: ElemId)
    requires id in nodes && k < |es|
    requires Dispatch(es[k], value).Some? && es[k].el == Some(id)
    requires forall j :: k < j < |es| ==> !(Dispatch(es[j], value).Some? && es[j].el == Some(id))
    ensures var e := ApplyEntries(nodes, es, value)[id];
            var shown := Dispatch(es[k], value).value;
            e.acfHidden == !shown && e.hiddenAttr == !shown && e.disabledAttr == !shown
    decreases |es|
  {
    var init := es[..|es| - 1];
    assert forall j :: 0 <= j < |init| ==> init[j] == es[j];
    if k < |es| - 1 {
      LastEntryDecides(nodes, init, value, k, id);
    }
  }

  /** The verdicts the entries of `es` apply to element `id`, in order. */
  function Verdicts(es: seq<CondObj>, value: string, id: ElemId): seq<bool>
    decreases |es|
  {
    if es == [] then []
    else
      var last := es[|es| - 1];
      Verdicts(es[..|es| - 1], value, id)
      + (if Dispatch(last, value).Some? && last.el == Some(id) then [Dispatch(last, value).value] else [])
  }

  /** Each element ends up as its own state with its verdicts applied in order. */
  lemma {:induction false} ApplyEntriesAt(nodes: map<ElemId, Element>, es: seq<CondObj>, value: string, id: ElemId)
    requires id in nodes
    ensures ApplyEntries(nodes, es, value)[id] == ApplyAll(nodes[id], Verdicts(es, value, id))
    decreases |es|
  {
    if es != [] {
      var init := es[..|es| - 1];
      var vs := Verdicts(init, value, id);
      ApplyEntriesAt(nodes, init, value, id);
      var last := es[|es| - 1];
      if Dispatch(last, value).Some? && last.el == Some(id) {
        assert (vs + [Dispatch(last, value).value])[..|vs|] == vs;
      } else {
        assert vs + [] == vs;
      }
    }
  }

  /** A second pass over the same entries with the same value leaves the post box as it is. */
  lemma PassIdempotent(nodes: map<ElemId, Element>, es: seq<CondObj>, value: string)
    ensures ApplyEntries(ApplyEntries(nodes, es, value), es, value) == ApplyEntries(nodes, es, value)
  {
    var once := ApplyEntries(nodes, es, value);
    var twice := ApplyEntries(once, es, value);
    forall id | id in once ensures twice[id] == once[id] {
      ApplyEntriesAt(nodes, es, value, id);
      ApplyEntriesAt(once, es, value, id);
      ApplyAllIdempotent(nodes[id], Verdicts(es, value, id));
    }
  }

  /** The part of the document the image-select field lives in (`.postbox.acf-postbox`). */
  class PostBox {
    var nodes: map<ElemId, Element>

    constructor (nodes: map<ElemId, Element>)
      ensures this.nodes == nodes
    {
      this.nodes := nodes;
    }
  }

  /** One image-select field and the dependents it controls. */
  class ImageSelect {
    /** `imageSelectFieldKey`. */
    const key: string
    /** `imageSelectFieldGroup`. */
    const group: PostBox
    /** The image-select element's `value` attribute. */
    var valueAttr: Option<string>
    /** `ImageSelectSiblingFieldsConditions`. */
    var catalog: Catalog
    /** Whether the change listener is attached. */
    var listening: bool
    /** The repeater fields a row observer watches. */
    var observed: seq<ElemId>

    ghost predicate Valid()
      reads this, group
    {
      (listening <==> catalog.Entries?)
      && (observed != [] ==> catalog.Entries?)
      && (catalog.Entries? ==> Resolves(catalog.list, group.nodes))
    }

    /**
      * `new ImageSelect(el)`: build the catalog, watch the repeaters, and when the catalog
      * is an array (even an empty one) run one pass and then attach the change listener.
      */
    constructor (key: string, group: PostBox, fields: seq<Field>, valueAttr: Option<string>, checked: Option<string>)
      requires forall j :: 0 <= j < |fields| ==> fields[j].id in group.nodes
      modifies group
      ensures Valid()
      ensures this.key == key && this.group == group
      ensures catalog == SiblingCatalog(fields, key)
      ensures observed == RepeaterIds(fields)
      ensures listening <==> |fields| > 0
      ensures listening ==> group.nodes == Pass(old(group.nodes), catalog, checked)
                            && this.valueAttr == (if checked.Some? then checked else valueAttr)
      ensures !listening ==> group.nodes == old(group.nodes) && this.valueAttr == valueAttr
    {
      this.key := key;
      this.group := group;
      this.valueAttr := valueAttr;
      catalog := NoSiblings;
      listening := false;
      observed := [];
      new;
      var siblings, repeaters := GetSiblingFields(fields, key);
      catalog := siblings;
      observed := repeaters;
      TrackedResolves(fields, key, group.nodes);
      if catalog.Entries? {
        SetupListeners(checked);
      }
    }

    /** `setupListeners`: one evaluation pass first, then the change listener. */
    method SetupListeners(checked: Option<string>)
      requires catalog.Entries? && Resolves(catalog.list, group.nodes)
      modifies this`listening, this`valueAttr, group
      ensures listening
      ensures group.nodes == Pass(old(group.nodes), catalog, checked)
      ensures valueAttr == if checked.Some? then checked else old(valueAttr)
    {
      HandleConditions(None, checked);
      listening := true;
    }

    /**
      * `handleConditions(value)`. `arg` is the argument (None for `false`); `checked` is the
      * value of the checked input, None when no input is checked.
      */
    method HandleConditions(arg: Option<string>, checked: Option<string>)
      requires catalog.Entries? ==> Resolves(catalog.list, group.nodes)
      modifies this`valueAttr, group
      ensures group.nodes == Pass(old(group.nodes), catalog, EffectiveValue(arg, checked))
      ensures group.nodes.Keys == old(group.nodes).Keys
      ensures valueAttr == if Falsy(arg) && checked.Some? then checked else old(valueAttr)
    {
      var value: string;
      if Falsy(arg) {
        if checked.Some? {
          valueAttr := checked;
          value := checked.value;
        } else {
          return;
        }
      } else {
        value := arg.value;
      }
      if !catalog.Entries? || value == "" {
        return;
      }
      var list := catalog.list;
      ghost var attr := valueAttr;
      var i := 0;
      while i < |list|
        invariant 0 <= i <= |list|
        invariant valueAttr == attr
        invariant group.nodes == ApplyEntries(old(group.nodes), list[..i], value)
      {
        var conditions := list[i];
        if conditions.and.Some? {
          var shown := HandleAndConditions(conditions.and.value, value);
          ShouldShowACFField(shown, conditions.el);
        } else if conditions.or.Some? {
          var shown := HandleOrConditions(conditions.or.value, value);
          ShouldShowACFField(shown, conditions.el);
        }
        assert list[..i + 1][..i] == list[..i];
        i := i + 1;
      }
      assert list[..i] == list;
    }

    /** `shouldShowACFField(shouldShow, el)`; a missing element is left alone. */
    method ShouldShowACFField(shouldShow: bool, el: Option<ElemId>)
      requires el.Some? ==> el.value in group.nodes
      modifies group
      ensures group.nodes == if el.None? then old(group.nodes)
                             else old(group.nodes)[el.value := Applied(shouldShow, old(group.nodes)[el.value])]
    {
      if el.None? {
        return;
      }
      var id := el.value;
      var e := group.nodes[id];
      var cs := e.controls;
      if shouldShow {
        e := e.(acfHidden := false);
        e := e.(hiddenAttr := false);
        e := e.(disabledAttr := false);
      } else {
        e := e.(acfHidden := true);
        e := e.(hiddenAttr := true);
        e := e.(disabledAttr := true);
      }
      var i := 0;
      while i < |cs|
        invariant 0 <= i <= |cs| && |cs| == |e.controls|
        invariant forall k :: 0 <= k < i ==> cs[k] == (if shouldShow then ShowControl(e.controls[k]) else HideControl(e.controls[k]))
        invariant forall k :: i <= k < |cs| ==> cs[k] == e.controls[k]
      {
        if shouldShow {
          if cs[i].disabled && EnabledOnShow(cs[i]) {
            cs := cs[i := cs[i].(disabled := false)];
          }
        } else if DisabledOnHide(cs[i]) {
          cs := cs[i := cs[i].(disabled := true)];
        }
        i := i + 1;
      }
      ghost var applied := Applied(shouldShow, old(group.nodes)[id]);
      assert cs == applied.controls by {
        forall k | 0 <= k < |cs| ensures cs[k] == applied.controls[k] {
        }
      }
      group.nodes := group.nodes[id := e.(controls := cs)];
    }

    /** The change listener: record the target's value, then run a pass with it. */
    method OnChange(targetValue: string, checked: Option<string>)
      requires Valid() && listening
      modifies this`valueAttr, group
      ensures Valid()
      ensures group.nodes == Pass(old(group.nodes), catalog, EffectiveValue(Some(targetValue), checked))
      ensures valueAttr == if targetValue == "" && checked.Some? then checked else Some(targetValue)
    {
      valueAttr := Some(targetValue);
      HandleConditions(Some(targetValue), checked);
    }

    /**
      * The row observer of `setUpRepeaterListener`: for an added node that is an
      * `.acf-row`, append the truthy condition objects of its fields and run one pass.
      */
    method OnRowAdded(repeater: ElemId, isRow: bool, rowFields: seq<Field>, checked: Option<string>)
      requires Valid() && repeater in observed
      requires forall j :: 0 <= j < |rowFields| ==> rowFields[j].id in group.nodes
      modifies this`catalog, this`valueAttr, group
      ensures Valid()
      ensures !isRow ==> catalog == old(catalog) && group.nodes == old(group.nodes) && valueAttr == old(valueAttr)
      ensures isRow ==> old(catalog).Entries? && catalog == Entries(old(catalog).list + Tracked(rowFields, key))
      ensures isRow ==> group.nodes == Pass(old(group.nodes), catalog, checked)
                        && valueAttr == (if checked.Some? then checked else old(valueAttr))
    {
      if !isRow {
        return;
      }
      var k := 0;
      while k < |rowFields|
        invariant 0 <= k <= |rowFields|
        invariant catalog == Entries(old(catalog).list + Tracked(rowFields[..k], key))
        invariant group.nodes == old(group.nodes) && valueAttr == old(valueAttr)
      {
        var ob := BuildConditionsObject(rowFields[k], key);
        if ob.Obj? {
          catalog := Entries(catalog.list + [ob.ob]);
        }
        assert rowFields[..k + 1] == rowFields[..k] + [rowFields[k]];
        TrackedAppend(rowFields[..k], [rowFields[k]], key);
        k := k + 1;
      }
      assert rowFields[..k] == rowFields;
      TrackedResolves(rowFields, key, group.nodes);
      HandleConditions(None, checked);
    }
  }
}
