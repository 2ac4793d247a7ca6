/**
  * The visibility state of a dependent field element and what `shouldShowACFField`
  * does to it: the `acf-hidden` class, the `hidden` and `disabled` attributes, and the
  * `disabled` attribute of the form controls inside it.
  */
module Visibility {

  datatype Tag = Select | Textarea | Input | OtherTag

  /**
    * A descendant of the field element. `typeHidden` is `[type="hidden"]`; `inAcfInput`
    * says the control lies under an `.acf-input` element.
    */
  datatype Control = Control(tag: Tag, typeHidden: bool, inAcfInput: bool, disabled: bool)

  /** A field element: the `acf-hidden` class, the `hidden` and `disabled` attributes, its controls. */
  datatype Element = Element(acfHidden: bool, hiddenAttr: bool, disabledAttr: bool, controls: seq<Control>)

  /** Matched by `.acf-input [disabled]:not([type="hidden"])` once it is disabled. */
  predicate EnabledOnShow(c: Control) {
    c.inAcfInput && !c.typeHidden
  }

  /** Matched by `.acf-input :is(select, textarea, input:not([type="hidden"]))`. */
  predicate DisabledOnHide(c: Control) {
    c.inAcfInput && (c.tag == Select || c.tag == Textarea || (c.tag == Input && !c.typeHidden))
  }

  function ShowControl(c: Control): Control {
    if c.disabled && EnabledOnShow(c) then c.(disabled := false) else c
  }

  function HideControl(c: Control): Control {
    if DisabledOnHide(c) then c.(disabled := true) else c
  }

  /** The element after `shouldShowACFField(shouldShow, el)`. */
  function Applied(shouldShow: bool, e: Element): (r: Element)
    ensures r.acfHidden == !shouldShow && r.hiddenAttr == !shouldShow && r.disabledAttr == !shouldShow
    ensures |r.controls| == |e.controls|
    ensures forall i :: 0 <= i < |e.controls| ==>
              r.controls[i].tag == e.controls[i].tag && r.controls[i].typeHidden == e.controls[i].typeHidden
              && r.controls[i].inAcfInput == e.controls[i].inAcfInput
    ensures shouldShow ==> forall i :: 0 <= i < |e.controls| ==>
              r.controls[i].disabled == (e.controls[i].disabled && !EnabledOnShow(e.controls[i]))
    ensures !shouldShow ==> forall i :: 0 <= i < |e.controls| ==>
              r.controls[i].disabled == (e.controls[i].disabled || DisabledOnHide(e.controls[i]))
  {
    var cs := e.controls;
    if shouldShow then
      Element(false, false, false, seq(|cs|, i requires 0 <= i < |cs| => ShowControl(cs[i])))
    else
      Element(true, true, true, seq(|cs|, i requires 0 <= i < |cs| => HideControl(cs[i])))
  }

  /** Applying the same verdict twice leaves the element as applying it once. */
  lemma AppliedIdempotent(shouldShow: bool, e: Element)
    ensures Applied(shouldShow, Applied(shouldShow, e)) == Applied(shouldShow, e)
  {
    var once := Applied(shouldShow, e);
    var twice := Applied(shouldShow, once);
    assert twice.controls == once.controls by {
      forall i | 0 <= i < |once.controls| ensures twice.controls[i] == once.controls[i] {
        assert twice.controls[i].disabled == once.controls[i].disabled;
      }
    }
  }

  /**
    * Hiding then showing enables every control under `.acf-input` that is not
    * `[type="hidden"]`, including one that was disabled before it was hidden (the engine
    * does not remember it); a `select` or `textarea` carrying `type="hidden"` is disabled by
    * the hide and not re-enabled by the show.
    */
  lemma HideThenShow(e: Element)
    ensures var r := Applied(true, Applied(false, e));
            forall i :: 0 <= i < |r.controls| ==>
              (r.controls[i].disabled <==> (e.controls[i].disabled || DisabledOnHide(e.controls[i])) && !EnabledOnShow(e.controls[i]))
  {
  }

  /** Whether applying verdict `shouldShow` sets the control's `disabled` attribute (to `!shouldShow`). */
  predicate Affects(shouldShow: bool, c: Control) {
    if shouldShow then EnabledOnShow(c) else DisabledOnHide(c)
  }

  /** The element after the verdicts `bs` were applied to it in order. */
  function ApplyAll(e: Element, bs: seq<bool>): Element
    decreases |bs|
  {
    if bs == [] then e else Applied(bs[|bs| - 1], ApplyAll(e, bs[..|bs| - 1]))
  }

  /** A control's `disabled` attribute after the verdicts `bs`: set by the last one that affects it. */
  function DisabledAfter(c: Control, bs: seq<bool>): bool
    decreases |bs|
  {
    if bs == [] then c.disabled
    else if Affects(bs[|bs| - 1], c) then !bs[|bs| - 1]
    else DisabledAfter(c, bs[..|bs| - 1])
  }

  /** Each control of `ApplyAll(e, bs)` is the original with `disabled` replaced by `DisabledAfter`. */
  lemma {:induction false} ApplyAllControls(e: Element, bs: seq<bool>)
    ensures |ApplyAll(e, bs).controls| == |e.controls|
    ensures forall i :: 0 <= i < |e.controls| ==>
              ApplyAll(e, bs).controls[i] == e.controls[i].(disabled := DisabledAfter(e.controls[i], bs))
    decreases |bs|
  {
    if bs != [] {
      ApplyAllControls(e, bs[..|bs| - 1]);
    }
  }

  lemma {:induction false} DisabledAfterIdempotent(c: Control, bs: seq<bool>)
    ensures DisabledAfter(c.(disabled := DisabledAfter(c, bs)), bs) == DisabledAfter(c, bs)
    decreases |bs|
  {
    if bs != [] {
      var init := bs[..|bs| - 1];
      if !Affects(bs[|bs| - 1], c) {
        DisabledAfterIdempotent(c, init);
      }
    }
  }

  /** Applying the same run of verdicts a second time changes nothing. */
  lemma ApplyAllIdempotent(e: Element, bs: seq<bool>)
    ensures ApplyAll(ApplyAll(e, bs), bs) == ApplyAll(e, bs)
  {
    var once := ApplyAll(e, bs);
    var twice := ApplyAll(once, bs);
    ApplyAllControls(e, bs);
    ApplyAllControls(once, bs);
    forall i | 0 <= i < |e.controls| ensures twice.controls[i] == once.controls[i] {
      DisabledAfterIdempotent(e.controls[i], bs);
    }
    assert twice.controls == once.controls;
  }
}
