# Navigation shell of the three.js teaching site, in Dafny

This project models the decision logic of the site's navigation shell: the
left-hand menu component, the breadcrumb, and the navigation hook. The graphics
pages are not modelled.

- **Menu search** (`MenuFilter`). `filterMenuItems` is a left fold over the
  top-level entries. An entry is kept when its own title, or the title of one
  of its direct children, contains the search term, ignoring case. A kept
  entry's children are cut down to the matching ones. The fold is written as
  the method `FilterMenuItems` and proved equal to the specification function
  `Filtered`. The lemmas about `Filtered` prove:
  - the empty term keeps the list as it is;
  - the filter is sound, complete and keeps the input order (`FilterSelects`);
  - filtering twice with the same term gives the same list (`FilteredIdempotent`).
- **Menu component** (`NavigationMenu`).
  - The static menu tree and the `ROUTES` constants (`Routes`). Five of the
    constants the menu refers to do not exist, so they are `None` here.
  - The class `Menu` holds the component state: the expanded-group list and
    the search text. Its methods are `toggleExpanded` and `handleMenuClick`,
    which returns the navigation and selection events instead of performing them.
  - `getCurrentSelectedKey`.
  - The rules for showing a submenu, the selection mark and the "no results"
    indicator.
- **Breadcrumb** (`Breadcrumb`).
  - The five-entry path table.
  - The trail built by up to three pushes (`BuildTrail`, proved equal to `Trail`).
  - The shape of every trail.
  - The separator rule used when the trail is rendered.
- **Navigation hook** (`Navigation`). The hook keeps the selected key as state
  and has a setter for it. The key is mapped to a content label by a total mapping.

JavaScript truthiness is modelled explicitly (`Wrappers.Truthy`): an empty
string counts as "not given" for `selectedKey`, a menu entry's `path`, a
breadcrumb parent, and the search term. `toLowerCase` is modelled as folding
the ASCII letters A–Z. Every other character is left as it is.

Notes on the code's behaviour:
- A click on a leaf reports the leaf's key to the selection callback whether or
  not the leaf has a path. Navigation happens only when the path is truthy.
- A kept group's children are cut down to the matching ones even when the
  group's own title matched.
- Only seven route constants exist. The selected-key `switch` cases for the
  other five compare the pathname with `undefined`, so they never match. The
  menu leaves that use those constants have no path.
- On "/overview" and "/changelog" the selected key is "overview" or
  "changelog". No menu entry carries either key, so no entry is marked there.

## Model

| member | source | states |
|---|---|---|
| `Strings.LowerChar` | src/components/layout/NavigationMenu/index.tsx:82-84 | lower-casing maps each of A–Z to the letter at the same position in a–z, leaves every other character alone, and never yields an upper-case ASCII letter |
| `Strings.Lower` | src/components/layout/NavigationMenu/index.tsx:82-84 | `toLowerCase` keeps the length and lower-cases each character in place |
| `Strings.LowerIdempotent` | src/components/layout/NavigationMenu/index.tsx:82-84 | lower-casing twice is the same as once |
| `Strings.Includes` | src/components/layout/NavigationMenu/index.tsx:82-84 | a term is found only if it fits in the string, and a term at the very start is always found; `IncludesIff` gives the full meaning |
| `Strings.IncludesIff` | src/components/layout/NavigationMenu/index.tsx:82-84 | `includes` holds exactly when the term occurs at some position of the string (`Occurs`) |
| `Strings.IncludesEmpty` | src/components/layout/NavigationMenu/index.tsx:79 | every string includes the empty string |
| `Routes.RoutePath` | src/router/index.ts:54-62 | every defined route constant is a non-empty path starting with "/" |
| `Routes.DefinedRoutes` | src/router/index.ts:54-62 | exactly seven constants are defined, and their paths are pairwise distinct |
| `MenuFilter.Matches` | src/components/layout/NavigationMenu/index.tsx:82-84 | a term longer than the title never matches; `MatchesIff` gives the full meaning |
| `MenuFilter.MatchesIff` | src/components/layout/NavigationMenu/index.tsx:82-84 | a title matches exactly when the lower-cased term occurs somewhere in the lower-cased title |
| `MenuFilter.MatchingChildren` | src/components/layout/NavigationMenu/index.tsx:94-96 | the child filter never lengthens the list |
| `MenuFilter.MatchingChildrenMembers` | src/components/layout/NavigationMenu/index.tsx:94-96 | a child survives exactly when it is an input child whose title matches |
| `MenuFilter.MatchingChildrenAll` | src/components/layout/NavigationMenu/index.tsx:94-96 | when every child matches, the filter keeps all of them |
| `MenuFilter.MatchingChildrenIdempotent` | src/components/layout/NavigationMenu/index.tsx:94-96 | filtering the children twice with the same term gives the once-filtered children |
| `MenuFilter.MatchingChildrenOrder` | src/components/layout/NavigationMenu/index.tsx:94-96 | the kept children are exactly the matching input children, in input order (an increasing index list witnesses it) |
| `MenuFilter.HasMatchingChild` | src/components/layout/NavigationMenu/index.tsx:85-89 | `hasMatchingChildren` holds exactly when the entry has a `children` list and the child filter leaves at least one child |
| `MenuFilter.Keeps` | src/components/layout/NavigationMenu/index.tsx:91 | an entry is kept exactly when its own title matches or its pruned copy still has children |
| `MenuFilter.Pruned` | src/components/layout/NavigationMenu/index.tsx:92-97 | the pushed copy has the same key, title, icon, badge and path; it has children iff the input had; its children are exactly the matching input children, in input order (`MatchingChildren`, whose order is proved by `MatchingChildrenOrder`) |
| `MenuFilter.Filtered` | src/components/layout/NavigationMenu/index.tsx:81-102 | the fold never lengthens the top-level list |
| `MenuFilter.FilterMenuItems` | src/components/layout/NavigationMenu/index.tsx:78-103 | the early return plus the push loop compute exactly the fold `Filtered` for every term |
| `MenuFilter.MatchesEmptyTerm` | src/components/layout/NavigationMenu/index.tsx:79-84 | every title matches the empty term |
| `MenuFilter.MatchesIgnoresCase` | src/components/layout/NavigationMenu/index.tsx:82-84 | lower-casing the title or the term before matching changes nothing: matching is case-insensitive on both sides |
| `MenuFilter.EmptyTermKeepsAll` | src/components/layout/NavigationMenu/index.tsx:79-102 | for the empty term the fold returns the input unchanged, so the early return agrees with it |
| `MenuFilter.FilteredAppend` | src/components/layout/NavigationMenu/index.tsx:81-102 | the fold over a concatenation is the concatenation of the folds |
| `MenuFilter.PrunedStable` | src/components/layout/NavigationMenu/index.tsx:82-97 | a kept entry's pruned copy is kept again, and pruning it again changes nothing |
| `MenuFilter.FilterSelects` | src/components/layout/NavigationMenu/index.tsx:81-102 | the output is the pruned copies of exactly the input entries that pass the keep rule (own title or a direct child's title matches), in input order |
| `MenuFilter.FilteredIdempotent` | src/components/layout/NavigationMenu/index.tsx:81-102 | filtering an already filtered list with the same term returns it unchanged |
| `MenuFilter.FilteredEmptyIff` | src/components/layout/NavigationMenu/index.tsx:81-102 | the fold returns an empty list exactly when no entry passes the keep rule |
| `NavigationMenu.MenuDataShape` | src/components/layout/NavigationMenu/index.tsx:106-168 | the nine leaf keys and the group key are pairwise distinct, and a leaf lacks a path exactly when its route constant is missing |
| `NavigationMenu.CurrentSelectedKey` | src/components/layout/NavigationMenu/index.tsx:43-73 | the selected key is never empty; without a truthy `selectedKey` it is one of the six keys whose `case` label can match |
| `NavigationMenu.SelectedKeyExplicit` | src/components/layout/NavigationMenu/index.tsx:43-44 | a truthy `selectedKey` is returned as it is, whatever the pathname |
| `NavigationMenu.SelectedKeyFallback` | src/components/layout/NavigationMenu/index.tsx:46-72 | without an explicit key, "/" and "/simple-example" select "simple-example", and so does every pathname that equals no defined route constant |
| `NavigationMenu.SelectedKeyRange` | src/components/layout/NavigationMenu/index.tsx:46-72 | without an explicit key the derived key is never one of the five leaves whose route constant is missing, and it names a menu leaf unless it is "overview" or "changelog", which no menu entry carries |
| `NavigationMenu.SelectedKeyIff` | src/components/layout/NavigationMenu/index.tsx:50-65 | without a truthy `selectedKey`, each of "first-example-2", "first-example-3", "advanced-example", "overview" and "changelog" is derived from exactly one pathname |
| `NavigationMenu.SelectedKeyMatchesLeafPath` | src/components/layout/NavigationMenu/index.tsx:43-73 | without a truthy `selectedKey`, navigating to the path of any menu leaf that has one selects that leaf's key |
| `NavigationMenu.Without` | src/components/layout/NavigationMenu/index.tsx:175 | removing a key drops every occurrence of it and keeps every other key |
| `NavigationMenu.WithoutAbsent` | src/components/layout/NavigationMenu/index.tsx:175 | removing an absent key leaves the list unchanged |
| `NavigationMenu.WithoutAppend` | src/components/layout/NavigationMenu/index.tsx:175 | removal distributes over appending one element |
| `NavigationMenu.Toggled` | src/components/layout/NavigationMenu/index.tsx:173-177 | the toggled key's membership flips; every other key's membership is unchanged |
| `NavigationMenu.ToggleTwiceAbsent` | src/components/layout/NavigationMenu/index.tsx:173-177 | toggling an absent key twice restores the original list |
| `NavigationMenu.ToggleTwicePresent` | src/components/layout/NavigationMenu/index.tsx:173-177 | toggling a present key twice removes it and appends it at the end |
| `NavigationMenu.WithoutDistinct` | src/components/layout/NavigationMenu/index.tsx:175 | removing a key keeps a duplicate-free list duplicate-free |
| `NavigationMenu.ToggledDistinct` | src/components/layout/NavigationMenu/index.tsx:173-177 | toggling keeps the expanded list duplicate-free |
| `NavigationMenu.HasChildren` | src/components/layout/NavigationMenu/index.tsx:203 | an entry counts as a group exactly when it has a `children` list with at least one child; `children: []` is a leaf |
| `NavigationMenu.SubmenuVisible` | src/components/layout/NavigationMenu/index.tsx:231 | a submenu is shown only for an expanded entry with children, and never while the menu is collapsed; `SubmenuToggle` relates it to a click |
| `NavigationMenu.IsSelected` | src/components/layout/NavigationMenu/index.tsx:202 | an entry with an empty key is never marked; without a truthy `selectedKey` no leaf whose route constant is missing is marked; `SelectionMarkUnique` shows at most one leaf is |
| `NavigationMenu.NoResultsVisible` | src/components/layout/NavigationMenu/index.tsx:262 | the indicator shows only for an empty filtered list, and never for an empty term or a collapsed menu; `NoResultsIff` gives the full condition |
| `NavigationMenu.SubmenuToggle` | src/components/layout/NavigationMenu/index.tsx:201-231 | in an uncollapsed menu, toggling a group flips whether its submenu is shown; an entry with no children never shows one |
| `NavigationMenu.InitialSubmenu` | src/components/layout/NavigationMenu/index.tsx:35-39 | on mount the example group's submenu is shown exactly when the menu is not collapsed |
| `NavigationMenu.NoResultsIff` | src/components/layout/NavigationMenu/index.tsx:262 | "no results" shows iff the term is non-empty, the menu is not collapsed and no top-level entry passes the keep rule |
| `NavigationMenu.SelectionMarkUnique` | src/components/layout/NavigationMenu/index.tsx:202 | with the menu tree as it is, for any `selectedKey` and pathname at most one leaf carries the selection mark, and then the group does not |
| `NavigationMenu.Menu.constructor` | src/components/layout/NavigationMenu/index.tsx:35-40 | the expanded list starts as ["general", "layout", "threejs-examples"] and the search text as empty |
| `NavigationMenu.Menu.SetSearchTerm` | src/components/layout/NavigationMenu/index.tsx:252 | the search text becomes the typed value |
| `NavigationMenu.Menu.ToggleExpanded` | src/components/layout/NavigationMenu/index.tsx:173-177 | the expanded list becomes the toggled list: the key's membership flips, other keys are unchanged, and there are still no duplicates |
| `NavigationMenu.Menu.HandleMenuClick` | src/components/layout/NavigationMenu/index.tsx:182-195 | a group with children only toggles its expansion; any other entry (including `children: []`) requests navigation iff its path is truthy, reports its key when a callback is given, and leaves the expanded list unchanged |
| `NavigationMenu.Menu.FilteredMenu` | src/components/layout/NavigationMenu/index.tsx:241 | the rendered list is no longer than the menu tree |
| `NavigationMenu.Menu.ShowsNoResults` | src/components/layout/NavigationMenu/index.tsx:262 | the component shows "no results" exactly when a search is typed, the menu is not collapsed and no entry of the menu tree passes the keep rule |
| `Breadcrumb.Trail` | src/components/layout/Breadcrumb/index.tsx:13-48 | a trail exists exactly for the five paths in the table |
| `Breadcrumb.BuildTrail` | src/components/layout/Breadcrumb/index.tsx:21-48 | the lookup and the three conditional pushes build exactly `Trail` |
| `Breadcrumb.TrailShape` | src/components/layout/Breadcrumb/index.tsx:26-48 | one to three entries; the last is the current page without a link; the first is the linked home entry iff the page is not "/"; a parent entry sits before the last iff the page declares one; only the first entry may carry a link |
| `Breadcrumb.HomeTrail` | src/components/layout/Breadcrumb/index.tsx:13-48 | "/" gives exactly one unlinked "首页" entry |
| `Breadcrumb.AdvancedExampleTrail` | src/components/layout/Breadcrumb/index.tsx:13-48 | "/advanced-example" gives "首页" linked to "/", then "Three.js 示例" and "高级示例" unlinked |
| `Breadcrumb.EntryPiece` | src/components/layout/Breadcrumb/index.tsx:55-61 | an entry renders as a link exactly when its path is truthy, to that path, with its own title; never as a separator |
| `Breadcrumb.Render` | src/components/layout/Breadcrumb/index.tsx:52-62 | k entries render as 2k − 1 pieces: entry i at position 2i, a separator at every position 2i − 1 between entries |
| `Breadcrumb.SeparatorCount` | src/components/layout/Breadcrumb/index.tsx:52-54 | a trail of k entries renders k − 1 separators among 2k − 1 pieces |
| `Navigation.ContentFor` | src/hooks/useNavigation.ts:20-33 | the mapping is total: every key gives one of the four labels |
| `Navigation.ContentForIff` | src/hooks/useNavigation.ts:21-32 | "advanced", "overview" and "changelog" each come from exactly one key; "simple" comes from "simple-example" and from every unlisted key |
| `Navigation.NavigationState.constructor` | src/hooks/useNavigation.ts:8 | the selected key starts as "simple-example", whose content is "simple" |
| `Navigation.NavigationState.HandleMenuSelect` | src/hooks/useNavigation.ts:13-15 | the selected key becomes exactly the given key, and the content becomes that key's label, whatever was selected before |
| `Navigation.NavigationState.CurrentContent` | src/hooks/useNavigation.ts:20-33 | the current content is always one of the four labels |

## Left out

- The three.js example pages are not part of this model. Their animation loops,
  floating-point transforms, tween library, GUI bindings and resource disposal
  all run inside libraries the model cannot see.
- The router configuration (`createBrowserRouter`, lazy loading) is not
  modelled. Only its `ROUTES` constants are used, as data.
- The content renderer, the sidebar and the layout shell are not modelled. The
  shell's only logic is negating its collapsed flag.
- The application wiring and the build configuration are not modelled.
- JSX and CSS output (class names, icons, badges, the level counter) is not
  modelled. The breadcrumb's rendered pieces are kept only to state the
  separator rule.
- `navigate` and `onMenuSelect` are not called. `HandleMenuClick` returns them
  as events, and a Boolean says whether a callback was supplied.
- The location is a parameter: the pathname is passed to `CurrentSelectedKey`
  and to `Trail`.
- React's batching of state updates and its re-rendering are not modelled. Each
  setter is applied at once.
- Strings.Lower: lower-cases ASCII A–Z only. JavaScript's `toLowerCase` also
  maps non-ASCII letters by the full Unicode case tables.
- Strings.Includes: its own contract states only the fit and the prefix case;
  its full meaning is proved by `IncludesIff`.
- MenuFilter.Matches: its own contract states only the length bound; its full
  meaning is proved by `MatchesIff`.
- NavigationMenu.NoResultsVisible: its own contract states only necessary
  conditions; the full condition is proved by `NoResultsIff`.
- MenuFilter.MatchingChildren: its own contract is only a length bound; its
  meaning is proved by `MatchingChildrenMembers` and `MatchingChildrenOrder`.
- MenuFilter.Filtered: its own contract is only a length bound; its meaning is
  proved by `FilterSelects`, `FilteredIdempotent` and `EmptyTermKeepsAll`.
- NavigationMenu.Menu.FilteredMenu: its own contract is only a length bound;
  it is `Filtered` applied to the menu tree and the current search text.
