/** The site navigation: one item per route, labelled from the route's path,
    and an under-bar that moves to the clicked item. */
module Nav {
  import opened Common

  /** `toUpperCase` on a string, character by character. */
  function UpperCase(s: string): (r: string)
    ensures |r| == |s|
    ensures forall i :: 0 <= i < |s| ==> r[i] == UpperChar(s[i])
  {
    seq(|s|, i requires 0 <= i < |s| => UpperChar(s[i]))
  }

  /** The label of a route: "Home" for "/", otherwise the character after the
      leading slash upper-cased followed by the rest of the path with every
      "-" turned into a space. */
  function NavLabel(path: string): (r: string)
    ensures path == "/" ==> r == "Home"
    ensures path != "/" ==> |r| == (if |path| >= 1 then |path| - 1 else 0)
    ensures path != "/" && |path| >= 2 ==> r[0] == UpperChar(path[1])
    ensures path != "/" ==> forall i :: 1 <= i < |r| ==> r[i] == (if path[i + 1] == '-' then ' ' else path[i + 1])
  {
    if path == "/" then "Home"
    else UpperCase(JsSlice(path, 1, 2)) + ReplaceChar(JsSlice(path, 2, |path|), '-', ' ')
  }

  /** Only the first character of a label can be a dash, and only when the
      path's second character is one: the upper-cased part is not searched for
      dashes. */
  lemma LabelDashes(path: string)
    requires path != "/"
    ensures forall i :: 1 <= i < |NavLabel(path)| ==> NavLabel(path)[i] != '-'
    ensures '-' in NavLabel(path) ==> |path| >= 2 && path[1] == '-'
  {
    var r := NavLabel(path);
    if '-' in r {
      var i :| 0 <= i < |r| && r[i] == '-';
      assert i == 0;
    }
  }

  /** A route path of the usual shape: a slash, a lower-case letter, then
      lower-case letters and dashes. */
  predicate RoutePath(path: string)
  {
    && |path| >= 2 && path[0] == '/' && 'a' <= path[1] <= 'z'
    && forall i :: 2 <= i < |path| ==> ('a' <= path[i] <= 'z' || path[i] == '-')
  }

  function LowerChar(c: char): char
  {
    if 'A' <= c <= 'Z' then (c as int + 32) as char else c
  }

  /** Reading a label back into a path: lower-case the first letter, turn
      spaces back into dashes, and put the slash in front. */
  function PathOfLabel(text: string): string
    requires |text| >= 1
  {
    "/" + [LowerChar(text[0])] + ReplaceChar(text[1..], ' ', '-')
  }

  /** For route paths of the usual shape the label determines the path, so
      different routes get different labels. */
  lemma LabelRoundTrip(path: string)
    requires RoutePath(path)
    ensures |NavLabel(path)| >= 1 && PathOfLabel(NavLabel(path)) == path
  {
    var r := NavLabel(path);
    var p := PathOfLabel(r);
    assert |p| == |path|;
    forall i | 0 <= i < |path|
      ensures p[i] == path[i]
    {
      if i >= 2 {
        assert p[i] == ReplaceChar(r[1..], ' ', '-')[i - 2];
      }
    }
  }

  lemma LabelsDistinct(a: string, b: string)
    requires RoutePath(a) && RoutePath(b) && a != b
    ensures NavLabel(a) != NavLabel(b)
  {
    LabelRoundTrip(a);
    LabelRoundTrip(b);
  }

  datatype NavItem = NavItem(path: string, text: string)

  /** `routes.map(...)`: one item per route, in route order. */
  function NavItems(paths: seq<string>): (r: seq<NavItem>)
    ensures |r| == |paths|
    ensures forall i :: 0 <= i < |paths| ==> r[i].path == paths[i] && r[i].text == NavLabel(paths[i])
  {
    seq(|paths|, i requires 0 <= i < |paths| => NavItem(paths[i], NavLabel(paths[i])))
  }

  /** The site's route paths. */
  const Routes: seq<string> := ["/", "/date-picker", "/bubble-pie-chart", "/violin-plot", "/box-plot",
                                "/heat-map", "/calendar-heat-map", "/time-line", "/color-palette"]

  /** Two of the labels the site shows. */
  lemma SomeLabels()
    ensures NavItems(Routes)[0].text == "Home"
    ensures NavItems(Routes)[1].text == "Date picker"
  {
    var r := NavLabel("/date-picker");
    assert "/date-picker" != "/" by { assert |"/date-picker"| != |"/"|; }
    assert r == "Date picker";
  }

  /** The under-bar: the left offset and width of the last clicked item. */
  datatype UnderBar = UnderBar(left: int, width: int)

  const InitialUnderBar: UnderBar := UnderBar(0, 0)

  /** `onClickNav`: the under-bar spans the clicked item exactly, whatever it
      spanned before. */
  function ClickNav(bar: UnderBar, offsetLeft: int, offsetWidth: int): (r: UnderBar)
    ensures r.left == offsetLeft && r.left + r.width == offsetLeft + offsetWidth
  {
    UnderBar(offsetLeft, offsetWidth)
  }
}
