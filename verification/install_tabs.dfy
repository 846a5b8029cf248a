/**
 The installation tabs: clicking a tab makes it the only active tab and shows
 exactly the panels whose `data-content` names the clicked tab's `data-tab`.
 Attributes are read with `getAttribute`, which yields null for a missing
 attribute; two missing attributes therefore compare equal.
 */
module InstallTabs {
  import opened Wrappers

  /** An `.install-tab` element: its `data-tab` attribute and whether it
      carries the `active` class. */
  datatype Tab = Tab(dataTab: Option<string>, active: bool)

  /** An `.install-content` panel: its `data-content` attribute and whether it
      carries the `active` class. */
  datatype Panel = Panel(dataContent: Option<string>, active: bool)

  /** The click handler of tab number `clicked`: clear `active` from every
      tab, set it on the clicked one, then clear it from every panel and set
      it again on the panels that match. */
  method Click(tabs: seq<Tab>, panels: seq<Panel>, clicked: nat) returns (tabs': seq<Tab>, panels': seq<Panel>)
    requires clicked < |tabs|
    ensures |tabs'| == |tabs| && |panels'| == |panels|
    ensures forall j :: 0 <= j < |tabs| ==> tabs'[j].dataTab == tabs[j].dataTab
    ensures forall j :: 0 <= j < |tabs| ==> (tabs'[j].active <==> j == clicked)
    ensures forall j :: 0 <= j < |panels| ==> panels'[j].dataContent == panels[j].dataContent
    ensures forall j :: 0 <= j < |panels| ==>
              (panels'[j].active <==> panels[j].dataContent == tabs[clicked].dataTab)
  {
    var target := tabs[clicked].dataTab;
    tabs' := [];
    var i := 0;
    while i < |tabs|
      invariant i <= |tabs| && |tabs'| == i
      invariant forall j :: 0 <= j < i ==> tabs'[j] == tabs[j].(active := false)
    {
      tabs' := tabs' + [tabs[i].(active := false)];
      i := i + 1;
    }
    tabs' := tabs'[clicked := tabs'[clicked].(active := true)];

    panels' := [];
    i := 0;
    while i < |panels|
      invariant i <= |panels| && |panels'| == i
      invariant forall j :: 0 <= j < i ==> panels'[j].dataContent == panels[j].dataContent
      invariant forall j :: 0 <= j < i ==> (panels'[j].active <==> panels[j].dataContent == target)
    {
      var panel := panels[i].(active := false);
      if panels[i].dataContent == target {
        panel := panel.(active := true);
      }
      panels' := panels' + [panel];
      i := i + 1;
    }
  }

  function CountActive(tabs: seq<Tab>): nat
  {
    if tabs == [] then 0 else (if tabs[0].active then 1 else 0) + CountActive(tabs[1..])
  }

  /** After a click exactly one tab is active. */
  lemma {:induction false} ExactlyOneActive(tabs: seq<Tab>, clicked: nat)
    requires clicked < |tabs|
    requires forall j :: 0 <= j < |tabs| ==> (tabs[j].active <==> j == clicked)
    ensures CountActive(tabs) == 1
    decreases |tabs|
  {
    if clicked == 0 {
      NoneActive(tabs[1..]);
    } else {
      ExactlyOneActive(tabs[1..], clicked - 1);
    }
  }

  lemma {:induction false} NoneActive(tabs: seq<Tab>)
    requires forall j :: 0 <= j < |tabs| ==> !tabs[j].active
    ensures CountActive(tabs) == 0
    decreases |tabs|
  {
    if tabs != [] {
      NoneActive(tabs[1..]);
    }
  }
}
