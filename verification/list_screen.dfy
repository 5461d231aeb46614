/**
  The app's two destinations and the parser that maps a navigation route
  back to one of them.
 */
module ListScreen {
  import opened Lang

  datatype Screen = Home | Manage {
    /** The enum constant's `name`, used as the route's first segment. */
    function Name(): (name: string) {
      match this
      case Home => "Home"
      case Manage => "Manage"
    }
  }

  /** `fromRoute`: no route means the home screen; otherwise the text before
      the first '/' (the whole route when there is none) must be a screen's
      name, and anything else throws `IllegalArgumentException`. */
  function FromRoute(route: Option<string>): (r: Result<Screen>)
    ensures route.None? ==> r == Ok(Home)
    ensures route.Some? ==> (r.Err? <==> SubstringBefore(route.value, '/') !in {"Home", "Manage"})
    ensures r.Err? ==> r.error == IllegalArgument
    ensures route.Some? && r.Ok? ==> r.value.Name() == SubstringBefore(route.value, '/')
  {
    match route
    case None => Ok(Home)
    case Some(s) =>
      var head := SubstringBefore(s, '/');
      if head == Home.Name() then Ok(Home)
      else if head == Manage.Name() then Ok(Manage)
      else Err(IllegalArgument)
  }

  /** The text before the first '/' of a slash-free prefix followed by
      nothing or by a '/' is that prefix. */
  lemma {:induction false} BeforeFirstSlash(n: string, rest: string)
    requires '/' !in n
    requires |rest| == 0 || rest[0] == '/'
    ensures SubstringBefore(n + rest, '/') == n
    decreases |n|
  {
    if |n| == 0 {
      assert n + rest == rest;
    } else {
      assert n[0] in n;
      assert (n + rest)[1..] == n[1..] + rest;
      BeforeFirstSlash(n[1..], rest);
    }
  }

  /** A route starting with a screen's name followed by '/' parses as that
      screen, whatever follows, more slashes included. */
  lemma NameThenAnything(screen: Screen, rest: string)
    ensures FromRoute(Some(screen.Name() + "/" + rest)) == Ok(screen)
  {
    assert screen.Name() + "/" + rest == screen.Name() + ("/" + rest);
    BeforeFirstSlash(screen.Name(), "/" + rest);
  }

  /** A bare screen name, with no '/', parses as that screen. */
  lemma BareName(screen: Screen)
    ensures FromRoute(Some(screen.Name())) == Ok(screen)
  {
    assert screen.Name() + "" == screen.Name();
    BeforeFirstSlash(screen.Name(), "");
  }

  /** Every route is either absent, recognised or rejected: it parses as
      `screen` exactly when it is that screen's name alone or followed by a
      '/' and anything. */
  lemma {:induction false} RouteShapes(s: string, screen: Screen)
    ensures FromRoute(Some(s)) == Ok(screen) <==>
      s == screen.Name() || (|s| > |screen.Name()| && s[..|screen.Name()| + 1] == screen.Name() + "/")
  {
    var n := screen.Name();
    var head := SubstringBefore(s, '/');
    if FromRoute(Some(s)) == Ok(screen) {
      assert head == n;
      if |head| < |s| {
        assert s[..|n| + 1] == s[..|n|] + [s[|n|]];
      }
    }
    if s == n {
      BareName(screen);
    } else if |s| > |n| && s[..|n| + 1] == n + "/" {
      assert s == n + "/" + s[|n| + 1..];
      NameThenAnything(screen, s[|n| + 1..]);
    }
  }

  /** The empty route names no screen. */
  lemma EmptyRouteRejected()
    ensures FromRoute(Some("")) == Err(IllegalArgument)
  {
  }
}
