/** A `.readmore-list` (`initReadMoreLists` in js/main.js): a list cut to its
  * first `showCount` items, with a button injected after it that expands
  * and collapses the rest. An item is represented by its inline
  * `style.display`; `"none"` hides it. */
module ReadMore {
  import opened Dom

  /** The injected `.readmore-button`: its `aria-expanded` and its text. */
  datatype Button = Button(ariaExpanded: string, text: string)

  /** The items' inline displays and the button, if one was injected. */
  datatype ReadMoreView = ReadMoreView(displays: seq<string>, button: Option<Button>)

  const Expand: Button := Button("false", "Leer m\U{00E1}s")
  const Collapse: Button := Button("true", "Leer menos")

  predicate IsHidden(display: string)
  {
    display == "none"
  }

  /** The collapsing loop: every item at an index `>= showCount` gets
    * `display: none`, the others keep their display. */
  function Collapsed(displays: seq<string>, showCount: int): seq<string>
  {
    seq(|displays|, i requires 0 <= i < |displays| => if i >= showCount then "none" else displays[i])
  }

  /** The expanding loop: every item's inline display is cleared. */
  function Expanded(displays: seq<string>): seq<string>
  {
    seq(|displays|, i requires 0 <= i < |displays| => "")
  }

  /** Initialisation of one list. */
  function Init(displays: seq<string>, showCount: int): ReadMoreView
  {
    if |displays| <= showCount then ReadMoreView(displays, None)
    else ReadMoreView(Collapsed(displays, showCount), Some(Expand))
  }

  /** The button's click handler, which reads the state back from
    * `aria-expanded`. */
  function OnClick(v: ReadMoreView, showCount: int): ReadMoreView
    requires v.button.Some?
  {
    if IsTrueText(v.button.value.ariaExpanded) then ReadMoreView(Collapsed(v.displays, showCount), Some(Expand))
    else ReadMoreView(Expanded(v.displays), Some(Collapse))
  }

  /** A short list is left as it is and gets no button; a long one gets one
    * button, collapsed, and exactly its items at index `>= showCount` are
    * hidden (the others keep whatever display they had). */
  lemma InitHidesTail(displays: seq<string>, showCount: int)
    ensures |displays| <= showCount ==> Init(displays, showCount) == ReadMoreView(displays, None)
    ensures |displays| > showCount ==>
      && Init(displays, showCount).button == Some(Button("false", "Leer m\U{00E1}s"))
      && |Init(displays, showCount).displays| == |displays|
      && forall i :: 0 <= i < |displays| ==>
           (i >= showCount ==> IsHidden(Init(displays, showCount).displays[i]))
           && (i < showCount ==> Init(displays, showCount).displays[i] == displays[i])
  {
  }

  /** Clicking a collapsed button shows every item and relabels it
    * "Leer menos"; clicking an expanded one hides exactly the items at
    * index `>= showCount` of a fully shown list and relabels it. */
  lemma ClickEffects(v: ReadMoreView, showCount: int)
    requires v.button.Some?
    ensures !IsTrueText(v.button.value.ariaExpanded) ==>
      && OnClick(v, showCount).button == Some(Button("true", "Leer menos"))
      && forall i :: 0 <= i < |OnClick(v, showCount).displays| ==> !IsHidden(OnClick(v, showCount).displays[i])
    ensures IsTrueText(v.button.value.ariaExpanded) ==>
      && OnClick(v, showCount).button == Some(Button("false", "Leer m\U{00E1}s"))
      && forall i :: 0 <= i < |v.displays| ==>
           (IsHidden(OnClick(v, showCount).displays[i]) <==> i >= showCount || IsHidden(v.displays[i]))
    ensures |OnClick(v, showCount).displays| == |v.displays|
  {
  }

  /** The states the button can be in once it has been clicked: collapsed
    * with exactly the tail hidden and the head shown plainly, or expanded
    * with everything shown plainly. */
  predicate Settled(v: ReadMoreView, showCount: int)
  {
    || v == ReadMoreView(Collapsed(Expanded(v.displays), showCount), Some(Expand))
    || v == ReadMoreView(Expanded(v.displays), Some(Collapse))
  }

  /** An expanding click always leads to a settled state; clicks keep a
    * settled state settled, and from one two clicks restore it exactly. */
  lemma {:induction false} TwoClicksRestore(v: ReadMoreView, showCount: int)
    requires v.button.Some?
    ensures !IsTrueText(v.button.value.ariaExpanded) ==> Settled(OnClick(v, showCount), showCount)
    ensures Settled(v, showCount) ==> Settled(OnClick(v, showCount), showCount)
    ensures Settled(v, showCount) ==> OnClick(OnClick(v, showCount), showCount) == v
  {
    var w := OnClick(v, showCount);
    var d := v.displays;
    if !IsTrueText(v.button.value.ariaExpanded) {
      assert Expanded(w.displays) == w.displays;
    }
    if Settled(v, showCount) {
      if v.button == Some(Expand) {
        assert w.displays == Expanded(d);
        assert Expanded(w.displays) == w.displays;
        assert Collapsed(Expanded(d), showCount) == d;
      } else {
        assert w.displays == Collapsed(d, showCount);
        assert Expanded(Collapsed(d, showCount)) == d;
        assert Collapsed(Expanded(w.displays), showCount) == w.displays;
      }
    }
  }

  /** When the first `showCount` items start out shown, the visibility after
    * initialisation and two clicks is the visibility after initialisation. */
  lemma TwoClicksRestoreVisibility(displays: seq<string>, showCount: int)
    requires |displays| > showCount
    requires forall i :: 0 <= i < |displays| && i < showCount ==> !IsHidden(displays[i])
    ensures OnClick(Init(displays, showCount), showCount).button.Some?
    ensures var after := OnClick(OnClick(Init(displays, showCount), showCount), showCount);
      && after.button == Init(displays, showCount).button
      && |after.displays| == |displays|
      && forall i :: 0 <= i < |displays| ==> IsHidden(after.displays[i]) == IsHidden(Init(displays, showCount).displays[i])
  {
  }

  /** A list of five items with a threshold of three: items 0-2 shown and
    * 3-4 hidden, all five shown after a click, the first state back after
    * a second click. */
  lemma FiveItemsThresholdThree()
    ensures Init(["", "", "", "", ""], 3) == ReadMoreView(["", "", "", "none", "none"], Some(Expand))
    ensures OnClick(Init(["", "", "", "", ""], 3), 3) == ReadMoreView(["", "", "", "", ""], Some(Collapse))
    ensures OnClick(OnClick(Init(["", "", "", "", ""], 3), 3), 3) == Init(["", "", "", "", ""], 3)
  {
    var d: seq<string> := ["", "", "", "", ""];
    assert Collapsed(d, 3) == ["", "", "", "none", "none"];
    assert Expanded(["", "", "", "none", "none"]) == d;
  }

  class ReadMoreList {
    var displays: seq<string>
    const showCount: int
    var button: Option<Button>

    function View(): ReadMoreView
      reads this
    {
      ReadMoreView(displays, button)
    }

    /** Initialisation: short lists are left untouched; longer ones have
      * their tail hidden and get a collapsed button. */
    constructor (displays: seq<string>, showCount: int)
      ensures View() == Init(displays, showCount) && this.showCount == showCount
    {
      this.displays := displays;
      this.showCount := showCount;
      this.button := None;
      new;
      if |displays| > showCount {
        HideTail();
        button := Some(Button("false", "Leer m\U{00E1}s"));
      }
    }

    method HideTail()
      modifies this`displays
      ensures displays == Collapsed(old(displays), showCount)
    {
      var idx := 0;
      while idx < |displays|
        invariant 0 <= idx <= |displays| == |old(displays)|
        invariant forall m :: 0 <= m < idx ==> displays[m] == Collapsed(old(displays), showCount)[m]
        invariant forall m :: idx <= m < |displays| ==> displays[m] == old(displays)[m]
      {
        if idx >= showCount {
          displays := displays[idx := "none"];
        }
        idx := idx + 1;
      }
    }

    method ShowAll()
      modifies this`displays
      ensures displays == Expanded(old(displays))
    {
      var idx := 0;
      while idx < |displays|
        invariant 0 <= idx <= |displays| == |old(displays)|
        invariant forall m :: 0 <= m < idx ==> displays[m] == ""
      {
        displays := displays[idx := ""];
        idx := idx + 1;
      }
    }

    /** A click on the injected button. */
    method Click()
      requires button.Some?
      modifies this
      ensures View() == OnClick(old(View()), showCount)
    {
      var expanded := button.value.ariaExpanded == "true";
      if expanded {
        HideTail();
        button := Some(Button("false", "Leer m\U{00E1}s"));
      } else {
        ShowAll();
        button := Some(Button("true", "Leer menos"));
      }
    }
  }
}
