/** A `.collapsible` block (`initCollapsibles` in js/main.js): a summary that
  * opens and closes the block on a click or on Enter/Space. */
module Collapsibles {
  import opened Dom

  /** What the handlers change: `collapsible--open` on the block, the
    * summary's `aria-expanded`, and the text of the `.collapsible__toggle`
    * element. */
  datatype CollapsibleView = CollapsibleView(open: bool, ariaExpanded: string, toggleText: string)

  function LabelFor(isOpen: bool): string
  {
    if isOpen then "Ocultar" else "Mostrar"
  }

  /** The ARIA attribute, and the toggle text when there is one, agree with the
    * open class. */
  predicate Consistent(v: CollapsibleView, hasLabel: bool)
  {
    v.ariaExpanded == BoolText(v.open) && (hasLabel ==> v.toggleText == LabelFor(v.open))
  }

  /** `updateState(isOpen)`. */
  function UpdateState(v: CollapsibleView, hasLabel: bool, isOpen: bool): (r: CollapsibleView)
    ensures r.open == isOpen && Consistent(r, hasLabel)
    ensures IsTrueText(r.ariaExpanded) == isOpen
    ensures !hasLabel ==> r.toggleText == v.toggleText
  {
    BoolTextRoundTrip(isOpen);
    CollapsibleView(isOpen, BoolText(isOpen), if hasLabel then LabelFor(isOpen) else v.toggleText)
  }

  /** The click handler on the summary. */
  function OnClick(v: CollapsibleView, hasLabel: bool): CollapsibleView
  {
    UpdateState(v, hasLabel, !v.open)
  }

  /** The keydown handler on the summary: the new view and whether the
    * default action (scrolling on Space) was prevented. */
  function OnKeyDown(v: CollapsibleView, hasLabel: bool, key: string): (CollapsibleView, bool)
  {
    if key == "Enter" || key == " " then (UpdateState(v, hasLabel, !v.open), true) else (v, false)
  }

  /** Enter and Space act exactly like a click (and suppress the default
    * action); every other key changes nothing. */
  lemma KeyboardMatchesClick(v: CollapsibleView, hasLabel: bool, key: string)
    ensures OnKeyDown(v, hasLabel, key).1 <==> key == "Enter" || key == " "
    ensures OnKeyDown(v, hasLabel, key).1 ==> OnKeyDown(v, hasLabel, key).0 == OnClick(v, hasLabel)
    ensures !OnKeyDown(v, hasLabel, key).1 ==> OnKeyDown(v, hasLabel, key).0 == v
  {
  }

  /** A click flips the open class and leaves the block consistent; a second
    * click restores a consistent block exactly. */
  lemma ClickTwiceRestores(v: CollapsibleView, hasLabel: bool)
    ensures OnClick(v, hasLabel).open == !v.open && Consistent(OnClick(v, hasLabel), hasLabel)
    ensures Consistent(v, hasLabel) ==> OnClick(OnClick(v, hasLabel), hasLabel) == v
  {
  }

  class Collapsible {
    var open: bool
    var ariaExpanded: string
    var tabindex: string
    const hasLabel: bool
    var toggleText: string

    function View(): CollapsibleView
      reads this
    {
      CollapsibleView(open, ariaExpanded, toggleText)
    }

    /** Initialisation makes the summary focusable and leaves the rest of
      * the markup as it is. */
    constructor (open: bool, ariaExpanded: string, hasLabel: bool, toggleText: string)
      ensures View() == CollapsibleView(open, ariaExpanded, toggleText) && this.hasLabel == hasLabel
      ensures tabindex == "0"
    {
      this.open := open;
      this.ariaExpanded := ariaExpanded;
      this.tabindex := "0";
      this.hasLabel := hasLabel;
      this.toggleText := toggleText;
    }

    method Click()
      modifies this
      ensures View() == OnClick(old(View()), hasLabel)
      ensures tabindex == old(tabindex)
    {
      var isOpen := !open;
      open := isOpen;
      ariaExpanded := BoolText(isOpen);
      if hasLabel {
        toggleText := if isOpen then "Ocultar" else "Mostrar";
      }
    }

    method KeyDown(key: string) returns (defaultPrevented: bool)
      modifies this
      ensures (View(), defaultPrevented) == OnKeyDown(old(View()), hasLabel, key)
      ensures tabindex == old(tabindex)
    {
      defaultPrevented := false;
      if key == "Enter" || key == " " {
        defaultPrevented := true;
        Click();
      }
    }
  }
}
