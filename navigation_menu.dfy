/**
 * The navigation menu component: its static menu tree, the expanded-group
 * list and the search text it keeps as state, what a click on an entry does,
 * which menu key counts as selected, and when a submenu, a selection mark or
 * the "no results" indicator is shown.
 */
module NavigationMenu {
  import opened Wrappers
  import opened Routes
  import opened MenuFilter

  // ------------------------------------------------------------- menu tree

  function Leaf(key: string, title: string, icon: string, route: RouteName): (r: MenuItem)
    ensures r.key == key && r.title == title && r.path == RoutePath(route) && r.children == None
  {
    MenuItem(key, title, Some(icon), None, RoutePath(route), None)
  }

  /** The one group of the menu and its nine leaves, in display order. */
  const ExampleLeaves: seq<MenuItem> := [
    Leaf("simple-example", "简单示例", "🔲", SimpleExample),
    Leaf("first-example-2", "简单示例2", "🔲", SimpleExample2),
    Leaf("first-example-3", "简单示例3", "🔲", SimpleExample3),
    Leaf("advanced-example", "高级示例", "🌟", AdvancedExample),
    Leaf("use-request-animation-frame", "使用 requestAnimationFrame 实现动画", "🔲", UseRequestAnimationFrame),
    Leaf("use-request-animation-frame-2", "使用 requestAnimationFrame 实现动画2", "🔲", UseRequestAnimationFrame2),
    Leaf("use-gsap-example", "使用 GSAP 实现动画", "🔲", UseGsapExample),
    Leaf("use-gui-control", "使用 GUI 控制动画", "🔲", UseGuiControl),
    Leaf("use-vertex-draw", "使用 Vertex Draw 实现动画", "🔲", UseVertexDraw)
  ]

  const ExamplesGroup: MenuItem :=
    MenuItem("threejs-examples", "Three.js 示例", Some("🎨"), None, None, Some(ExampleLeaves))

  const MenuData: seq<MenuItem> := [ExamplesGroup]

  /** The groups expanded when the component mounts. */
  const InitialExpandedKeys: seq<string> := ["general", "layout", "threejs-examples"]

  /** The menu keys whose leaves refer to a route constant that does not exist. */
  const UnroutedKeys: set<string> := {
    "use-request-animation-frame", "use-request-animation-frame-2", "use-gsap-example",
    "use-gui-control", "use-vertex-draw"
  }

  /** The menu keys are pairwise distinct, and exactly the five unrouted leaves lack a path. */
  lemma {:induction false} MenuDataShape()
    ensures |ExampleLeaves| == 9
    ensures forall i, j :: 0 <= i < j < |ExampleLeaves| ==> ExampleLeaves[i].key != ExampleLeaves[j].key
    ensures forall i :: 0 <= i < |ExampleLeaves| ==> ExampleLeaves[i].key != ExamplesGroup.key
    ensures forall i :: 0 <= i < |ExampleLeaves| ==>
      (ExampleLeaves[i].path == None <==> ExampleLeaves[i].key in UnroutedKeys)
  {
  }

  // ------------------------------------------------------- selected key

  /** The keys `getCurrentSelectedKey` can derive from a pathname. */
  const DerivableKeys: set<string> :=
    {"simple-example", "first-example-2", "first-example-3", "advanced-example", "overview", "changelog"}

  /**
   * `getCurrentSelectedKey`: a truthy `selectedKey` prop wins; otherwise the
   * pathname is compared, in the order of the `switch`, with each `ROUTES`
   * constant, and an unmatched pathname falls back to "simple-example".
   * The key is never empty, and a key derived from the pathname is one of
   * six: the five leaves whose `case` label can never match are never derived.
   */
  function CurrentSelectedKey(selectedKey: Option<string>, pathname: string): (r: string)
    ensures r != ""
    ensures !Truthy(selectedKey) ==> r in DerivableKeys
  {
    if Truthy(selectedKey) then selectedKey.value
    else if RouteIs(Home, pathname) || RouteIs(SimpleExample, pathname) then "simple-example"
    else if RouteIs(SimpleExample2, pathname) then "first-example-2"
    else if RouteIs(SimpleExample3, pathname) then "first-example-3"
    else if RouteIs(AdvancedExample, pathname) then "advanced-example"
    else if RouteIs(UseRequestAnimationFrame, pathname) then "use-request-animation-frame"
    else if RouteIs(UseRequestAnimationFrame2, pathname) then "use-request-animation-frame-2"
    else if RouteIs(UseGsapExample, pathname) then "use-gsap-example"
    else if RouteIs(Overview, pathname) then "overview"
    else if RouteIs(Changelog, pathname) then "changelog"
    else if RouteIs(UseGuiControl, pathname) then "use-gui-control"
    else if RouteIs(UseVertexDraw, pathname) then "use-vertex-draw"
    else "simple-example"
  }

  /** An explicit, non-empty `selectedKey` is returned as it is, whatever the pathname. */
  lemma SelectedKeyExplicit(selectedKey: Option<string>, pathname: string)
    requires Truthy(selectedKey)
    ensures CurrentSelectedKey(selectedKey, pathname) == selectedKey.value
  {
  }

  /**
   * Without an explicit key: the home path and "/simple-example" both select
   * "simple-example", and so does every pathname that equals no defined
   * route constant.
   */
  lemma SelectedKeyFallback(selectedKey: Option<string>, pathname: string)
    requires !Truthy(selectedKey)
    ensures pathname == "/" || pathname == "/simple-example" ==>
      CurrentSelectedKey(selectedKey, pathname) == "simple-example"
    ensures (forall name: RouteName :: !RouteIs(name, pathname)) ==>
      CurrentSelectedKey(selectedKey, pathname) == "simple-example"
  {
  }

  /**
   * Without an explicit key the derived key is never one of the five leaves
   * whose route constant is missing (their `case` labels can match no
   * pathname), and it names a leaf of the menu tree unless it is "overview"
   * or "changelog", which no menu entry carries.
   */
  lemma SelectedKeyRange(selectedKey: Option<string>, pathname: string)
    requires !Truthy(selectedKey)
    ensures CurrentSelectedKey(selectedKey, pathname) !in UnroutedKeys
    ensures (exists i :: 0 <= i < |ExampleLeaves| && ExampleLeaves[i].key == CurrentSelectedKey(selectedKey, pathname))
      <==> CurrentSelectedKey(selectedKey, pathname) !in {"overview", "changelog"}
  {
    var k := CurrentSelectedKey(selectedKey, pathname);
    if k == "simple-example" {
      assert ExampleLeaves[0].key == k;
    } else if k == "first-example-2" {
      assert ExampleLeaves[1].key == k;
    } else if k == "first-example-3" {
      assert ExampleLeaves[2].key == k;
    } else if k == "advanced-example" {
      assert ExampleLeaves[3].key == k;
    }
  }

  /**
   * Without an explicit key, each defined route path other than the home path
   * selects a different key: "/simple-example-2" is the only path selecting
   * "first-example-2", and likewise for the other routed entries.
   */
  lemma SelectedKeyIff(selectedKey: Option<string>, pathname: string)
    requires !Truthy(selectedKey)
    ensures CurrentSelectedKey(selectedKey, pathname) == "first-example-2" <==> pathname == "/simple-example-2"
    ensures CurrentSelectedKey(selectedKey, pathname) == "first-example-3" <==> pathname == "/simple-example-3"
    ensures CurrentSelectedKey(selectedKey, pathname) == "advanced-example" <==> pathname == "/advanced-example"
    ensures CurrentSelectedKey(selectedKey, pathname) == "overview" <==> pathname == "/overview"
    ensures CurrentSelectedKey(selectedKey, pathname) == "changelog" <==> pathname == "/changelog"
  {
  }

  /**
   * The derivation agrees with the menu tree: navigating to the path of any
   * leaf that has one selects that leaf's key.
   */
  lemma SelectedKeyMatchesLeafPath(selectedKey: Option<string>, i: nat)
    requires !Truthy(selectedKey)
    requires i < |ExampleLeaves| && ExampleLeaves[i].path.Some?
    ensures CurrentSelectedKey(selectedKey, ExampleLeaves[i].path.value) == ExampleLeaves[i].key
  {
  }

  // ----------------------------------------------------- expanded groups

  /** `prev.filter((k) => k !== key)` */
  function Without(keys: seq<string>, key: string): (r: seq<string>)
    ensures |r| <= |keys|
    ensures forall k :: k in r <==> k in keys && k != key
  {
    if keys == [] then []
    else (if keys[0] == key then [] else [keys[0]]) + Without(keys[1..], key)
  }

  /** Removing a key that is not there changes nothing. */
  lemma {:induction false} WithoutAbsent(keys: seq<string>, key: string)
    requires key !in keys
    ensures Without(keys, key) == keys
  {
    if keys != [] {
      WithoutAbsent(keys[1..], key);
    }
  }

  /** Removing a key from a list with an appended element removes it from both parts. */
  lemma {:induction false} WithoutAppend(keys: seq<string>, x: string, key: string)
    ensures Without(keys + [x], key) == Without(keys, key) + Without([x], key)
  {
    if keys == [] {
      assert keys + [x] == [x];
    } else {
      assert (keys + [x])[1..] == keys[1..] + [x];
      WithoutAppend(keys[1..], x, key);
    }
  }

  /** The update applied by `toggleExpanded`: remove `key` if present, else append it. */
  function Toggled(keys: seq<string>, key: string): (r: seq<string>)
    ensures key in r <==> key !in keys
    ensures forall k :: k != key ==> (k in r <==> k in keys)
  {
    if key in keys then Without(keys, key) else keys + [key]
  }

  /** Toggling an absent key twice restores the original list. */
  lemma ToggleTwiceAbsent(keys: seq<string>, key: string)
    requires key !in keys
    ensures Toggled(Toggled(keys, key), key) == keys
  {
    WithoutAppend(keys, key, key);
    WithoutAbsent(keys, key);
  }

  /** Toggling a present key twice moves it to the end of the list. */
  lemma ToggleTwicePresent(keys: seq<string>, key: string)
    requires key in keys
    ensures Toggled(Toggled(keys, key), key) == Without(keys, key) + [key]
  {
  }

  predicate Distinct(keys: seq<string>)
  {
    forall i, j :: 0 <= i < j < |keys| ==> keys[i] != keys[j]
  }

  /** Removing a key keeps a list free of duplicates. */
  lemma {:induction false} WithoutDistinct(keys: seq<string>, key: string)
    requires Distinct(keys)
    ensures Distinct(Without(keys, key))
  {
    if keys != [] {
      WithoutDistinct(keys[1..], key);
      assert keys[0] !in keys[1..];
    }
  }

  /** Toggling keeps the expanded list free of duplicates. */
  lemma ToggledDistinct(keys: seq<string>, key: string)
    requires Distinct(keys)
    ensures Distinct(Toggled(keys, key))
  {
    if key in keys {
      WithoutDistinct(keys, key);
    }
  }

  // ------------------------------------------------------------ visibility

  /** `item.children && item.children.length > 0`: an empty `children` list is a leaf. */
  predicate HasChildren(item: MenuItem)
    ensures HasChildren(item) <==> item.children.Some? && exists c :: c in item.children.value
  {
    if item.children.None? then false
    else
      var cs := item.children.value;
      assert cs != [] ==> cs[0] in cs;
      |cs| > 0
  }

  /** A submenu is rendered for a group that is expanded while the menu is not collapsed. */
  predicate SubmenuVisible(item: MenuItem, expandedKeys: seq<string>, collapsed: bool)
    ensures SubmenuVisible(item, expandedKeys, collapsed) ==> item.key in expandedKeys && HasChildren(item)
    ensures collapsed ==> !SubmenuVisible(item, expandedKeys, collapsed)
  {
    HasChildren(item) && item.key in expandedKeys && !collapsed
  }

  /**
   * An entry carries the selection mark when its key is the key
   * `getCurrentSelectedKey` derives. An entry with an empty key is never
   * marked, and without an explicit `selectedKey` no leaf whose route
   * constant is missing can be.
   */
  predicate IsSelected(item: MenuItem, selectedKey: Option<string>, pathname: string)
    ensures IsSelected(item, selectedKey, pathname) ==> item.key != ""
    ensures IsSelected(item, selectedKey, pathname) && !Truthy(selectedKey) ==> item.key !in UnroutedKeys
  {
    CurrentSelectedKey(selectedKey, pathname) == item.key
  }

  /** The "no results" indicator: a non-empty search, an empty filtered list, an expanded menu. */
  predicate NoResultsVisible(searchTerm: string, filtered: seq<MenuItem>, collapsed: bool)
    ensures NoResultsVisible(searchTerm, filtered, collapsed) ==> filtered == []
    ensures searchTerm == "" || collapsed ==> !NoResultsVisible(searchTerm, filtered, collapsed)
  {
    searchTerm != "" && |filtered| == 0 && !collapsed
  }

  /**
   * A click on an expandable group flips whether its submenu is shown (while
   * the menu is not collapsed); an entry without children never shows one.
   */
  lemma SubmenuToggle(item: MenuItem, expandedKeys: seq<string>, collapsed: bool)
    ensures HasChildren(item) && !collapsed ==>
      (SubmenuVisible(item, Toggled(expandedKeys, item.key), collapsed) <==> !SubmenuVisible(item, expandedKeys, collapsed))
    ensures !HasChildren(item) || collapsed ==> !SubmenuVisible(item, expandedKeys, collapsed)
  {
  }

  /** On mount the example group is expanded, so its leaves show unless the menu is collapsed. */
  lemma InitialSubmenu(collapsed: bool)
    ensures SubmenuVisible(ExamplesGroup, InitialExpandedKeys, collapsed) <==> !collapsed
  {
  }

  /**
   * The indicator is shown for a search exactly when the term is non-empty,
   * the menu is not collapsed and no top-level entry passes the keep rule.
   */
  lemma NoResultsIff(items: seq<MenuItem>, term: string, collapsed: bool)
    ensures NoResultsVisible(term, Filtered(items, term), collapsed) <==>
      term != "" && !collapsed && forall i :: 0 <= i < |items| ==> !Keeps(items[i], term)
  {
    FilteredEmptyIff(items, term);
  }

  /** With the menu tree as it is, at most one entry carries the selection mark. */
  lemma SelectionMarkUnique(selectedKey: Option<string>, pathname: string, i: nat, j: nat)
    requires i < |ExampleLeaves| && j < |ExampleLeaves|
    requires IsSelected(ExampleLeaves[i], selectedKey, pathname) && IsSelected(ExampleLeaves[j], selectedKey, pathname)
    ensures i == j
    ensures !IsSelected(ExamplesGroup, selectedKey, pathname)
  {
  }

  // ------------------------------------------------------ component state

  /** What a click asks of the outside world: a route change and a selection callback. */
  datatype ClickEvents = ClickEvents(navigateTo: Option<string>, selected: Option<string>)

  /** The state the component keeps: the expanded group keys and the search text. */
  class Menu {
    var expandedKeys: seq<string>
    var searchTerm: string

    ghost predicate Valid()
      reads this
    {
      Distinct(expandedKeys)
    }

    constructor ()
      ensures Valid()
      ensures expandedKeys == InitialExpandedKeys && searchTerm == ""
    {
      expandedKeys := InitialExpandedKeys;
      searchTerm := "";
    }

    /** `setSearchTerm` from the search box's change handler. */
    method SetSearchTerm(term: string)
      requires Valid()
      modifies this`searchTerm
      ensures Valid() && searchTerm == term
    {
      searchTerm := term;
    }

    /** `toggleExpanded`: flip `key`'s membership, leave every other key as it was. */
    method ToggleExpanded(key: string)
      requires Valid()
      modifies this`expandedKeys
      ensures Valid()
      ensures expandedKeys == Toggled(old(expandedKeys), key)
      ensures key in expandedKeys <==> key !in old(expandedKeys)
      ensures forall k :: k != key ==> (k in expandedKeys <==> k in old(expandedKeys))
    {
      ToggledDistinct(expandedKeys, key);
      if key in expandedKeys {
        expandedKeys := Without(expandedKeys, key);
      } else {
        expandedKeys := expandedKeys + [key];
      }
    }

    /**
     * `handleMenuClick`: a group with at least one child only toggles its
     * expansion; any other entry requests navigation when its path is
     * truthy and reports its key to the `onMenuSelect` callback when one is
     * given, leaving the expanded list unchanged.
     */
    method HandleMenuClick(item: MenuItem, hasSelectHandler: bool) returns (events: ClickEvents)
      requires Valid()
      modifies this`expandedKeys
      ensures Valid()
      ensures HasChildren(item) ==>
        expandedKeys == Toggled(old(expandedKeys), item.key) && events == ClickEvents(None, None)
      ensures !HasChildren(item) ==> expandedKeys == old(expandedKeys)
      ensures !HasChildren(item) ==>
        events.navigateTo == (if Truthy(item.path) then item.path else None)
      ensures !HasChildren(item) ==>
        events.selected == (if hasSelectHandler then Some(item.key) else None)
    {
      events := ClickEvents(None, None);
      if HasChildren(item) {
        ToggleExpanded(item.key);
      } else {
        if Truthy(item.path) {
          events := events.(navigateTo := item.path);
        }
        if hasSelectHandler {
          events := events.(selected := Some(item.key));
        }
      }
    }

    /** The list rendered under the search box. */
    function FilteredMenu(): (r: seq<MenuItem>)
      reads this
      ensures |r| <= |MenuData|
    {
      Filtered(MenuData, searchTerm)
    }

    /**
     * Whether the "no results" indicator is rendered: exactly when a search
     * is typed, the menu is not collapsed and no entry of the menu tree
     * passes the keep rule.
     */
    function ShowsNoResults(collapsed: bool): (r: bool)
      reads this
      ensures r <==> searchTerm != "" && !collapsed && forall i :: 0 <= i < |MenuData| ==> !Keeps(MenuData[i], searchTerm)
    {
      NoResultsIff(MenuData, searchTerm, collapsed);
      NoResultsVisible(searchTerm, FilteredMenu(), collapsed)
    }
  }
}
