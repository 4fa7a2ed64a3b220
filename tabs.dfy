/** The tabs controller of one `[data-tabs]` element (`initTabs` in
  * js/main.js): its `.tabs__button` controls, its `.tabs__panel` panels and,
  * when the enclosing section has one, the filter group it refreshes. */
module Tabs {
  import opened Dom
  import Filters

  /** A control: its `data-tab` (None when absent), `is-active`,
    * `aria-selected` and `tabindex`. */
  datatype Control = Control(tab: Option<string>, active: bool, ariaSelected: string, tabindex: string)

  /** A panel: its `id` ("" when absent), `hidden` and `is-active`. */
  datatype Panel = Panel(id: string, hidden: bool, active: bool)

  /** The panel id a target names, `` `tab-${targetId}` ``; an absent
    * `data-tab` is `undefined` and prints as such. */
  function PanelIdFor(target: Option<string>): string
  {
    "tab-" + match target case Some(t) => t case None => "undefined"
  }

  /** A control after `showTab(target)`. */
  function SelectControl(c: Control, target: Option<string>): Control
  {
    var isActive := c.tab == target;
    c.(active := isActive, ariaSelected := BoolText(isActive), tabindex := if isActive then "0" else "-1")
  }

  /** A panel after `showTab(target)`. */
  function ShowPanel(p: Panel, target: Option<string>): Panel
  {
    var isTarget := p.id == PanelIdFor(target);
    p.(hidden := !isTarget, active := isTarget)
  }

  /** Different tab names name different panels. */
  lemma PanelIdInjective(a: string, b: string)
    ensures PanelIdFor(Some(a)) == PanelIdFor(Some(b)) <==> a == b
  {
    if PanelIdFor(Some(a)) == PanelIdFor(Some(b)) {
      assert a == PanelIdFor(Some(a))[4..];
      assert b == PanelIdFor(Some(b))[4..];
    }
  }

  /** A control without `data-tab` selects the panel with id `tab-undefined`,
    * the same one a control with `data-tab="undefined"` selects. */
  lemma MissingTabNamesUndefined()
    ensures PanelIdFor(None) == PanelIdFor(Some("undefined"))
  {
  }

  /** After `showTab`, a panel is shown exactly when it is active, and a
    * control is selected, reports `aria-selected="true"` and has tabindex
    * "0" all at once. */
  lemma SelectionAgrees(c: Control, p: Panel, target: Option<string>)
    ensures !ShowPanel(p, target).hidden <==> ShowPanel(p, target).active
    ensures SelectControl(c, target).active <==> IsTrueText(SelectControl(c, target).ariaSelected)
    ensures SelectControl(c, target).active <==> SelectControl(c, target).tabindex == "0"
    ensures !SelectControl(c, target).active <==> SelectControl(c, target).tabindex == "-1"
  {
    BoolTextRoundTrip(c.tab == target);
  }

  /** Switching from tab `a` to a different tab `b` hides every panel `a`
    * showed. */
  lemma SwitchingHidesPrevious(p: Panel, a: string, b: string)
    requires a != b && !ShowPanel(p, Some(a)).hidden
    ensures ShowPanel(p, Some(b)).hidden
  {
    PanelIdInjective(a, b);
  }

  /** With distinct panel ids, at most one panel is shown after `showTab`. */
  lemma AtMostOnePanelShown(panels: seq<Panel>, target: Option<string>, i: nat, j: nat)
    requires forall m, n :: 0 <= m < n < |panels| ==> panels[m].id != panels[n].id
    requires i < |panels| && j < |panels|
    requires !ShowPanel(panels[i], target).hidden && !ShowPanel(panels[j], target).hidden
    ensures i == j
  {
  }

  class TabGroup {
    var controls: seq<Control>
    var panels: seq<Panel>
    const filterGroup: Filters.FilterGroup?

    constructor (controls: seq<Control>, panels: seq<Panel>, filterGroup: Filters.FilterGroup?)
      ensures this.controls == controls && this.panels == panels && this.filterGroup == filterGroup
    {
      this.controls := controls;
      this.panels := panels;
      this.filterGroup := filterGroup;
    }

    /** `showTab(targetId)`: selects the controls whose `data-tab` is the
      * target, shows only the panel named `tab-<target>`, then asks the
      * section's filter group, if any, to re-apply its filters. */
    method ShowTab(target: Option<string>)
      modifies this, filterGroup
      ensures |controls| == |old(controls)| && |panels| == |old(panels)|
      ensures forall i :: 0 <= i < |controls| ==> controls[i] == SelectControl(old(controls[i]), target)
      ensures forall i :: 0 <= i < |panels| ==> panels[i] == ShowPanel(old(panels[i]), target)
      ensures filterGroup != null ==>
        && filterGroup.activeFilter == old(filterGroup.activeFilter)
        && filterGroup.searchValue == old(filterGroup.searchValue)
        && filterGroup.buttons == old(filterGroup.buttons)
        && |filterGroup.items| == |old(filterGroup.items)|
        && forall i :: 0 <= i < |filterGroup.items| ==>
             filterGroup.items[i] == Filters.Refiltered(old(filterGroup.items[i]), filterGroup.activeFilter, filterGroup.Query())
    {
      var i := 0;
      while i < |controls|
        invariant 0 <= i <= |controls| == |old(controls)|
        invariant forall m :: 0 <= m < i ==> controls[m] == SelectControl(old(controls[m]), target)
        invariant forall m :: i <= m < |controls| ==> controls[m] == old(controls[m])
        invariant panels == old(panels)
        modifies this
      {
        var control := controls[i];
        var isActive := control.tab == target;
        controls := controls[i := control.(active := isActive, ariaSelected := BoolText(isActive),
                                           tabindex := if isActive then "0" else "-1")];
        i := i + 1;
      }
      var panelId := PanelIdFor(target);
      i := 0;
      while i < |panels|
        invariant 0 <= i <= |panels| == |old(panels)|
        invariant forall m :: 0 <= m < i ==> panels[m] == ShowPanel(old(panels[m]), target)
        invariant forall m :: i <= m < |panels| ==> panels[m] == old(panels[m])
        invariant |controls| == |old(controls)|
        invariant forall m :: 0 <= m < |controls| ==> controls[m] == SelectControl(old(controls[m]), target)
        modifies this
      {
        var panel := panels[i];
        var isTarget := panel.id == panelId;
        panels := panels[i := panel.(hidden := !isTarget, active := isTarget)];
        i := i + 1;
      }
      if filterGroup != null {
        filterGroup.ApplyFilters();
      }
    }

    /** A click on control `k`; the source registers its listeners only when
      * the group has both controls and panels. */
    method ClickControl(k: nat)
      requires k < |controls| && |panels| > 0
      modifies this, filterGroup
      ensures |controls| == |old(controls)| && |panels| == |old(panels)|
      ensures forall i :: 0 <= i < |controls| ==> controls[i] == SelectControl(old(controls[i]), old(controls[k].tab))
      ensures forall i :: 0 <= i < |panels| ==> panels[i] == ShowPanel(old(panels[i]), old(controls[k].tab))
      ensures controls[k].active && controls[k].tabindex == "0"
      ensures filterGroup != null ==>
        && filterGroup.activeFilter == old(filterGroup.activeFilter)
        && filterGroup.searchValue == old(filterGroup.searchValue)
        && filterGroup.buttons == old(filterGroup.buttons)
        && |filterGroup.items| == |old(filterGroup.items)|
        && forall i :: 0 <= i < |filterGroup.items| ==>
             filterGroup.items[i] == Filters.Refiltered(old(filterGroup.items[i]), filterGroup.activeFilter, filterGroup.Query())
    {
      ShowTab(controls[k].tab);
    }
  }
}
