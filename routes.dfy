/**
 * The route-path constants (`ROUTES`). The menu's selected-key switch refers
 * to twelve constant names, but only seven are defined; reading one of the
 * other five gives `undefined`, modelled here as `None`.
 */
module Routes {
  import opened Wrappers

  datatype RouteName =
    | Home
    | Overview
    | Changelog
    | SimpleExample
    | SimpleExample2
    | SimpleExample3
    | AdvancedExample
    | UseRequestAnimationFrame
    | UseRequestAnimationFrame2
    | UseGsapExample
    | UseGuiControl
    | UseVertexDraw

  /** `ROUTES.<name>`: the path, or `None` for a name the constant object lacks. */
  function RoutePath(name: RouteName): (r: Option<string>)
    ensures r.Some? ==> |r.value| > 0 && r.value[0] == '/'
  {
    match name
    case Home => Some("/")
    case Overview => Some("/overview")
    case Changelog => Some("/changelog")
    case SimpleExample => Some("/simple-example")
    case SimpleExample2 => Some("/simple-example-2")
    case SimpleExample3 => Some("/simple-example-3")
    case AdvancedExample => Some("/advanced-example")
    case _ => None
  }

  /**
   * A `case ROUTES.<name>:` label matches `pathname` under `===`. An absent
   * constant is `undefined`, which no pathname string equals.
   */
  predicate RouteIs(name: RouteName, pathname: string)
  {
    RoutePath(name) == Some(pathname)
  }

  /** Exactly seven constants are defined, and they are pairwise distinct. */
  lemma DefinedRoutes(name: RouteName)
    ensures RoutePath(name).Some? <==>
      name in {Home, Overview, Changelog, SimpleExample, SimpleExample2, SimpleExample3, AdvancedExample}
    ensures forall other: RouteName :: other != name && RoutePath(name).Some? ==> RoutePath(other) != RoutePath(name)
  {
  }
}
