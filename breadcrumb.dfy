/**
 * The breadcrumb: a fixed table from pathname to page title and optional
 * parent category, and the trail of at most three entries built from it —
 * a linked home entry unless already home, an unlinked parent category when
 * the page declares one, and the unlinked current page.
 */
module Breadcrumb {
  import opened Wrappers

  /** A `pathMap` value. */
  datatype PageEntry = PageEntry(title: string, parent: Option<string>)

  /** One trail entry; `path == None` is the source's `path: null` (not clickable). */
  datatype Crumb = Crumb(title: string, path: Option<string>)

  const HomeTitle: string := "首页"

  /** The linked home entry pushed first on every page but the home page. */
  const HomeCrumb: Crumb := Crumb(HomeTitle, Some("/"))

  const PathMap: map<string, PageEntry> := map[
    "/" := PageEntry(HomeTitle, None),
    "/overview" := PageEntry("组件总览", None),
    "/changelog" := PageEntry("更新日志", None),
    "/simple-example" := PageEntry("简单示例", Some("Three.js 示例")),
    "/advanced-example" := PageEntry("高级示例", Some("Three.js 示例"))
  ]

  /** The trail for `currentPath`, or `None` when the component renders nothing. */
  function Trail(currentPath: string): (r: Option<seq<Crumb>>)
    ensures r.Some? <==> currentPath in PathMap
  {
    if currentPath !in PathMap then None
    else
      var entry := PathMap[currentPath];
      Some((if currentPath != "/" then [HomeCrumb] else [])
        + (if Truthy(entry.parent) then [Crumb(entry.parent.value, None)] else [])
        + [Crumb(entry.title, None)])
  }

  /** The body of `Breadcrumb`: a table lookup, then up to three pushes. */
  method BuildTrail(currentPath: string) returns (trail: Option<seq<Crumb>>)
    ensures trail == Trail(currentPath)
  {
    if currentPath !in PathMap {
      return None;
    }
    var currentItem := PathMap[currentPath];
    var breadcrumbItems: seq<Crumb> := [];
    if currentPath != "/" {
      breadcrumbItems := breadcrumbItems + [HomeCrumb];
    }
    if Truthy(currentItem.parent) {
      breadcrumbItems := breadcrumbItems + [Crumb(currentItem.parent.value, None)];
    }
    breadcrumbItems := breadcrumbItems + [Crumb(currentItem.title, None)];
    assert breadcrumbItems == (if currentPath != "/" then [HomeCrumb] else [])
      + (if Truthy(currentItem.parent) then [Crumb(currentItem.parent.value, None)] else [])
      + [Crumb(currentItem.title, None)];
    return Some(breadcrumbItems);
  }

  /**
   * The shape of every trail: one to three entries; the last is the current
   * page's title without a link; the first is the linked home entry exactly
   * when the page is not home; a parent category sits just before the last
   * entry exactly when the page declares one; no entry but the first has a
   * link.
   */
  lemma TrailShape(currentPath: string)
    requires currentPath in PathMap
    ensures var t := Trail(currentPath).value; var entry := PathMap[currentPath];
      && 1 <= |t| <= 3
      && t[|t| - 1] == Crumb(entry.title, None)
      && (t[0] == HomeCrumb <==> currentPath != "/")
      && (|t| == (if currentPath == "/" then 1 else 2) + (if Truthy(entry.parent) then 1 else 0))
      && (Truthy(entry.parent) ==> t[|t| - 2] == Crumb(entry.parent.value, None))
      && (forall i :: 0 < i < |t| ==> t[i].path == None)
  {
  }

  /** The home page's trail is the single unlinked home title. */
  lemma HomeTrail()
    ensures Trail("/") == Some([Crumb(HomeTitle, None)])
  {
    var entry := PathMap["/"];
    assert entry == PageEntry(HomeTitle, None);
    assert !Truthy(entry.parent);
    var t: seq<Crumb> := [] + [] + [Crumb(entry.title, None)];
    assert Trail("/") == Some(t);
    assert t == [Crumb(HomeTitle, None)];
  }

  /** The advanced example's trail: home (linked), its category, itself. */
  lemma AdvancedExampleTrail()
    ensures Trail("/advanced-example") ==
      Some([Crumb("首页", Some("/")), Crumb("Three.js 示例", None), Crumb("高级示例", None)])
  {
    var entry := PathMap["/advanced-example"];
    assert entry == PageEntry("高级示例", Some("Three.js 示例"));
    assert Truthy(entry.parent);
    var t := [HomeCrumb] + [Crumb(entry.parent.value, None)] + [Crumb(entry.title, None)];
    assert Trail("/advanced-example") == Some(t);
    assert t == [Crumb("首页", Some("/")), Crumb("Three.js 示例", None), Crumb("高级示例", None)];
  }

  // -------------------------------------------------------------- rendering

  /** What one trail position renders to. */
  datatype Piece = Separator | Link(title: string, to: string) | Current(title: string)

  /** An entry with a truthy path becomes a link, any other a plain label; never a separator. */
  function EntryPiece(c: Crumb): (r: Piece)
    ensures !r.Separator? && r.title == c.title
    ensures r.Link? <==> Truthy(c.path)
    ensures r.Link? ==> Some(r.to) == c.path
  {
    if Truthy(c.path) then Link(c.title, c.path.value) else Current(c.title)
  }

  /**
   * The rendered trail: before every entry except the first, a separator.
   * Entry `i` sits at position `2i` and the separator before it at `2i - 1`.
   */
  function Render(items: seq<Crumb>): (r: seq<Piece>)
    ensures |r| == (if items == [] then 0 else 2 * |items| - 1)
    ensures forall i :: 0 <= i < |items| ==> r[2 * i] == EntryPiece(items[i])
    ensures forall i :: 0 < i < |items| ==> r[2 * i - 1] == Separator
  {
    if items == [] then []
    else
      var n := |items| - 1;
      Render(items[..n]) + (if n > 0 then [Separator] else []) + [EntryPiece(items[n])]
  }

  function Separators(ps: seq<Piece>): nat
  {
    if ps == [] then 0 else Separators(ps[..|ps| - 1]) + (if ps[|ps| - 1] == Separator then 1 else 0)
  }

  lemma {:induction false} SeparatorsAppend(a: seq<Piece>, b: seq<Piece>)
    ensures Separators(a + b) == Separators(a) + Separators(b)
    decreases |b|
  {
    if b == [] {
      assert a + b == a;
    } else {
      assert (a + b)[..|a + b| - 1] == a + b[..|b| - 1];
      SeparatorsAppend(a, b[..|b| - 1]);
    }
  }

  /** A trail of `k > 0` entries renders `k - 1` separators among `2k - 1` pieces. */
  lemma {:induction false} SeparatorCount(items: seq<Crumb>)
    requires |items| > 0
    ensures Separators(Render(items)) == |items| - 1
    ensures |Render(items)| == 2 * |items| - 1
  {
    var n := |items| - 1;
    var tail := (if n > 0 then [Separator] else []) + [EntryPiece(items[n])];
    SeparatorsAppend(Render(items[..n]), tail);
    assert Separators(tail) == (if n > 0 then 1 else 0) by {
      assert Separators([EntryPiece(items[n])]) == 0 by {
        assert [EntryPiece(items[n])][..0] == [];
      }
      if n > 0 {
        SeparatorsAppend([Separator], [EntryPiece(items[n])]);
        assert [Separator][..0] == [];
      } else {
        assert tail == [EntryPiece(items[n])];
      }
    }
    if n > 0 {
      SeparatorCount(items[..n]);
    }
  }
}
