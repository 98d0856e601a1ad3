/**
 * The path classification of src/App.tsx: which section a path belongs to,
 * and whether it gets the main layout (sidebar and left margin) or is
 * handed to the post view.
 */
module App {
  import opened Strings

  /** The four values `getCurrentView` returns. */
  datatype View = Landing | About | Projects | Writing

  /** `getCurrentView`: anything under "/writing" first, then the exact "/about" and "/projects", else the landing view. */
  function CurrentView(path: string): (view: View)
    ensures view == Writing <==> StartsWith(path, "/writing")
    ensures view == About <==> path == "/about"
    ensures view == Projects <==> path == "/projects"
  {
    if StartsWith(path, "/writing") then
      assert path[1] == "/writing"[1] != "/projects"[1];
      Writing
    else if path == "/about" then About
    else if path == "/projects" then Projects
    else Landing
  }

  predicate IsWritingRoute(path: string) {
    StartsWith(path, "/writing")
  }

  /** `isPostRoute`: none of the four main paths. */
  predicate IsPostRoute(path: string) {
    path != "/" && path != "/about" && path != "/projects" && path != "/writing"
  }

  const MainRoutes: seq<string> := ["/", "/about", "/projects", "/writing"]

  /** `isMainRoute`: one of the four main paths. */
  predicate IsMainRoute(path: string) {
    path in MainRoutes
  }

  /** A path is a post route exactly when it is not a main route. */
  lemma PostRouteIsNotMain(path: string)
    ensures IsPostRoute(path) <==> !IsMainRoute(path)
  {
    assert path in MainRoutes <==> path == MainRoutes[0] || path == MainRoutes[1] || path == MainRoutes[2] || path == MainRoutes[3];
  }

  /** A path below "/writing" is shown as the writing section, yet counts as a post route and not a main route. */
  lemma BelowWriting(path: string)
    requires IsWritingRoute(path) && path != "/writing"
    ensures CurrentView(path) == Writing
    ensures IsPostRoute(path) && !IsMainRoute(path)
  {
    PostRouteIsNotMain(path);
  }

  /** "/writing/x" is such a path. */
  lemma WritingSubpathExample()
    ensures CurrentView("/writing/x") == Writing && IsWritingRoute("/writing/x")
    ensures IsPostRoute("/writing/x") && !IsMainRoute("/writing/x")
  {
    assert "/writing/x"[..8] == "/writing";
    BelowWriting("/writing/x");
  }

  /** The landing view is every path that is not under "/writing", "/about" or "/projects". */
  lemma LandingPaths(path: string)
    ensures CurrentView(path) == Landing <==> !IsWritingRoute(path) && path != "/about" && path != "/projects"
  {
  }

  /** The frame around the routes: whether the sidebar is drawn and the class of the main element. */
  datatype Layout = Layout(sidebar: bool, mainClass: string)

  function LayoutFor(path: string): (layout: Layout)
    ensures layout.sidebar <==> IsMainRoute(path)
    ensures layout.mainClass == (if IsMainRoute(path) then "ml-48" else "")
  {
    var main := IsMainRoute(path);
    Layout(main, if main then "ml-48" else "")
  }

  /** Post routes are drawn without the sidebar and without the margin. */
  lemma PostRouteLayout(path: string)
    requires IsPostRoute(path)
    ensures LayoutFor(path) == Layout(false, "")
  {
    PostRouteIsNotMain(path);
  }
}
