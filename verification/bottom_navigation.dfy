/** The bottom tab bar (components/BottomNavigation.js). */
module BottomNavigation {
  import opened Common
  import Session

  datatype Tab = Tab(id: string, labelText: string)

  /** The four tabs, in the order they are drawn. */
  const Tabs: seq<Tab> := [
    Tab("home", "홈"),
    Tab("dotoriRoom", "도토리룸"),
    Tab("bookshelf", "나의 책장"),
    Tab("my", "my")]

  /** The active tab when none is given. */
  const DefaultActiveTab := "home"

  predicate IsActive(activeTab: string, tab: Tab)
  {
    activeTab == tab.id
  }

  /** The index of the tab whose id is `activeTab`, if any. */
  function ActiveIndex(activeTab: string): (r: Option<nat>)
    ensures r.Some? ==> r.value < |Tabs| && IsActive(activeTab, Tabs[r.value])
    ensures r.None? <==> forall i :: 0 <= i < |Tabs| ==> !IsActive(activeTab, Tabs[i])
  {
    if activeTab == "home" then Some(0)
    else if activeTab == "dotoriRoom" then Some(1)
    else if activeTab == "bookshelf" then Some(2)
    else if activeTab == "my" then Some(3)
    else None
  }

  /** At most one tab is active: the one `ActiveIndex` names. */
  lemma AtMostOneActive(activeTab: string, i: nat)
    requires i < |Tabs| && IsActive(activeTab, Tabs[i])
    ensures ActiveIndex(activeTab) == Some(i)
  {
  }

  /** The "chat" tab is documented as a possible active tab but drawn by
      none, so it leaves every tab inactive. */
  lemma ChatMatchesNoTab()
    ensures ActiveIndex("chat").None?
  {
  }

  /** A press on tab `i`: its id goes to `onTabPress` when that is given. */
  function Press(i: nat, hasOnTabPress: bool): (r: Option<string>)
    requires i < |Tabs|
    ensures r.Some? <==> hasOnTabPress
    ensures r.Some? ==> ActiveIndex(r.value) == Some(i)
  {
    if hasOnTabPress then Some(Tabs[i].id) else None
  }

  /** In the app the pressed tab becomes the active one, and before any
      press the home tab is. */
  lemma PressActivatesTab(s: Session.State, i: nat)
    requires i < |Tabs|
    ensures var r := Session.Step(s, Session.PressBottomTab(Press(i, true).value));
              ActiveIndex(r.activeBottomTab) == Some(i)
    ensures ActiveIndex(Session.Initial.activeBottomTab) == Some(0)
    ensures Session.Initial.activeBottomTab == DefaultActiveTab
  {
  }
}
