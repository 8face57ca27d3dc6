/**
  The router (app/router.py): an ordered list of routes, each a method, a
  path pattern anchored to the whole path, and a handler. Lookup takes the
  first route matching both path and method, answers 405 when the path is
  known under other methods only, and falls back to the default handler.
 */
module Router {
  import opened Wrappers
  import opened Text
  import opened Constants
  import opened Exceptions
  import opened HttpRequest
  import opened Handlers

  /**
    A path pattern as `add_route` anchors it (`^pattern$`): a fixed path, or
    a fixed prefix followed by anything (a pattern ending in `.*`).
   */
  datatype Pattern = Exact(path: string) | Prefix(prefix: string)

  predicate Matches(p: Pattern, path: string)
  {
    match p
    case Exact(s) => path == s
    case Prefix(s) => StartsWith(path, s)
  }

  /** One registered route. */
  datatype Route = Route(verb: Method, pattern: Pattern, handler: Handler)

  /** The route serves this method at this path. */
  predicate Hit(r: Route, verb: Method, path: string)
  {
    Matches(r.pattern, path) && r.verb == verb
  }

  /** The earliest route serving the method at the path, if any. */
  function FirstHit(routes: seq<Route>, verb: Method, path: string): (r: Option<nat>)
    ensures r.Some? ==> r.value < |routes| && Hit(routes[r.value], verb, path)
    ensures r.Some? ==> forall j :: 0 <= j < r.value ==> !Hit(routes[j], verb, path)
    ensures r.None? ==> forall j :: 0 <= j < |routes| ==> !Hit(routes[j], verb, path)
    decreases |routes|
  {
    if routes == [] then None
    else if Hit(routes[0], verb, path) then Some(0)
    else match FirstHit(routes[1..], verb, path)
      case None => None
      case Some(i) => Some(i + 1)
  }

  /** The methods of the routes whose pattern matches the path: `allowed_methods` after a full scan. */
  function AllowedIn(routes: seq<Route>, path: string): set<Method>
    decreases |routes|
  {
    if routes == [] then {}
    else
      var last := routes[|routes| - 1];
      AllowedIn(routes[..|routes| - 1], path) + (if Matches(last.pattern, path) then {last.verb} else {})
  }

  /** A method is allowed exactly when some route with that method matches the path. */
  lemma {:induction false} AllowedInExactly(routes: seq<Route>, path: string, m: Method)
    ensures m in AllowedIn(routes, path) <==>
      exists i :: 0 <= i < |routes| && Matches(routes[i].pattern, path) && routes[i].verb == m
    decreases |routes|
  {
    if routes != [] {
      var n := |routes| - 1;
      var init := routes[..n];
      AllowedInExactly(init, path, m);
      assert forall i :: 0 <= i < n ==> init[i] == routes[i];
      if m in AllowedIn(routes, path) && m !in AllowedIn(init, path) {
        assert Matches(routes[n].pattern, path) && routes[n].verb == m;
      }
    }
  }

  /** Python's `<` on two strings: code point by code point, a proper prefix first. */
  predicate StrLess(a: string, b: string)
    decreases |a|
  {
    b != [] && (a == [] || a[0] < b[0] || (a[0] == b[0] && StrLess(a[1..], b[1..])))
  }

  predicate StrictlySorted(s: seq<string>)
  {
    forall i, j :: 0 <= i < j < |s| ==> StrLess(s[i], s[j])
  }

  /** The methods in the order `sorted` puts their names. */
  const SortOrder: seq<Method> := [DELETE, GET, HEAD, OPTIONS, PATCH, POST, PUT]

  function Names(order: seq<Method>): (r: seq<string>)
    ensures |r| == |order|
    ensures forall i :: 0 <= i < |order| ==> r[i] == MethodName(order[i])
  {
    seq(|order|, i requires 0 <= i < |order| => MethodName(order[i]))
  }

  /** The names of the methods of `order` that are in `allowed`, in the order of `order`. */
  function NamesIn(order: seq<Method>, allowed: set<Method>): (r: seq<string>)
    ensures forall m :: MethodName(m) in r <==> m in order && m in allowed
    decreases |order|
  {
    if order == [] then []
    else
      var rest := NamesIn(order[1..], allowed);
      assert forall m :: m in order <==> m == order[0] || m in order[1..];
      assert forall m :: MethodName(m) == MethodName(order[0]) ==> m == order[0] by {
        forall m | MethodName(m) == MethodName(order[0]) ensures m == order[0] {
          NameInjective(m, order[0]);
        }
      }
      (if order[0] in allowed then [MethodName(order[0])] else []) + rest
  }

  /** `sorted(allowed_methods)`, for the set of methods whose names were added. */
  function SortedNames(allowed: set<Method>): seq<string>
  {
    NamesIn(SortOrder, allowed)
  }

  /** The method names, in `SortOrder`, are in strictly increasing string order. */
  lemma SortOrderSorted()
    ensures StrictlySorted(Names(SortOrder))
  {
    var n := Names(SortOrder);
    assert n == ["DELETE", "GET", "HEAD", "OPTIONS", "PATCH", "POST", "PUT"];
    assert StrLess("PATCH", "POST") && StrLess("POST", "PUT");
    assert forall i :: 0 <= i < |n| - 1 ==> StrLess(n[i], n[i + 1]);
    SortedFromAdjacent(n);
  }

  /** String order is transitive. */
  lemma {:induction false} StrLessTransitive(a: string, b: string, c: string)
    requires StrLess(a, b) && StrLess(b, c)
    ensures StrLess(a, c)
    decreases |a|
  {
    if a != [] && a[0] == b[0] && b[0] == c[0] {
      StrLessTransitive(a[1..], b[1..], c[1..]);
    }
  }

  /** A sequence increasing at each step is increasing between any two positions. */
  lemma SortedFromAdjacent(s: seq<string>)
    requires forall i :: 0 <= i < |s| - 1 ==> StrLess(s[i], s[i + 1])
    ensures StrictlySorted(s)
  {
    forall i, j | 0 <= i < j < |s| ensures StrLess(s[i], s[j]) {
      Chain(s, i, j);
    }
  }

  lemma {:induction false} Chain(s: seq<string>, i: nat, j: nat)
    requires forall k :: 0 <= k < |s| - 1 ==> StrLess(s[k], s[k + 1])
    requires i < j < |s|
    ensures StrLess(s[i], s[j])
    decreases j - i
  {
    if i + 1 < j {
      Chain(s, i, j - 1);
      StrLessTransitive(s[i], s[j - 1], s[j]);
    }
  }

  /** Keeping some names of a sorted order keeps them sorted. */
  lemma {:induction false} NamesInSorted(order: seq<Method>, allowed: set<Method>)
    requires StrictlySorted(Names(order))
    ensures StrictlySorted(NamesIn(order, allowed))
    decreases |order|
  {
    if order != [] {
      var tail := order[1..];
      assert Names(tail) == Names(order)[1..];
      NamesInSorted(tail, allowed);
      var rest := NamesIn(tail, allowed);
      forall j | 0 <= j < |tail| ensures StrLess(MethodName(order[0]), MethodName(tail[j])) {
        assert Names(order)[j + 1] == MethodName(tail[j]);
      }
      NamesInAbove(tail, allowed, MethodName(order[0]));
      var r := NamesIn(order, allowed);
      if order[0] in allowed {
        assert r == [MethodName(order[0])] + rest;
        forall i, j | 0 <= i < j < |r| ensures StrLess(r[i], r[j]) {
          assert r[j] == rest[j - 1];
          if i > 0 {
            assert r[i] == rest[i - 1];
          }
        }
      } else {
        assert r == rest;
      }
    }
  }

  /** A bound below every name of `order` is below every name kept from it. */
  lemma {:induction false} NamesInAbove(order: seq<Method>, allowed: set<Method>, x: string)
    requires forall j :: 0 <= j < |order| ==> StrLess(x, MethodName(order[j]))
    ensures forall k :: 0 <= k < |NamesIn(order, allowed)| ==> StrLess(x, NamesIn(order, allowed)[k])
    decreases |order|
  {
    if order != [] {
      var tail := order[1..];
      assert forall j :: 0 <= j < |tail| ==> tail[j] == order[j + 1];
      NamesInAbove(tail, allowed, x);
      var rest := NamesIn(tail, allowed);
      var r := NamesIn(order, allowed);
      if order[0] in allowed {
        assert r == [MethodName(order[0])] + rest;
        assert forall k :: 1 <= k < |r| ==> r[k] == rest[k - 1];
      } else {
        assert r == rest;
      }
    }
  }

  /** Every method names only itself. */
  lemma NameInjective(m: Method, n: Method)
    requires MethodName(m) == MethodName(n)
    ensures m == n
  {
    assert MethodFromValue(MethodName(m)) == Some(m);
  }

  /**
    The allowed list of a 405 holds each allowed method's name exactly once,
    in increasing string order, and no other name.
   */
  lemma SortedNamesExact(allowed: set<Method>)
    ensures StrictlySorted(SortedNames(allowed))
    ensures forall m :: MethodName(m) in SortedNames(allowed) <==> m in allowed
  {
    SortOrderSorted();
    NamesInSorted(SortOrder, allowed);
    forall m ensures m in SortOrder {
      match m
      case DELETE => assert SortOrder[0] == m;
      case GET => assert SortOrder[1] == m;
      case HEAD => assert SortOrder[2] == m;
      case OPTIONS => assert SortOrder[3] == m;
      case PATCH => assert SortOrder[4] == m;
      case POST => assert SortOrder[5] == m;
      case PUT => assert SortOrder[6] == m;
    }
  }

  /** The message of the 405 `find_handler` raises. */
  function NotAllowedMessage(verb: Method, path: string, allowed: set<Method>): string
  {
    "Method " + MethodName(verb) + " not allowed for " + path + ". Allowed: " + Join(SortedNames(allowed), ", ")
  }

  /** What `find_handler` returns or raises for a method and a path, over the routes as registered. */
  function Resolve(routes: seq<Route>, default: Handler, verb: Method, path: string): Result<Handler, HttpError>
  {
    match FirstHit(routes, verb, path)
    case Some(i) => Ok(routes[i].handler)
    case None =>
      var allowed := AllowedIn(routes, path);
      if allowed != {} then Err(Raise(MethodNotAllowed, Some(NotAllowedMessage(verb, path, allowed))))
      else Ok(default)
  }

  /** The earliest route serving both the path and the method decides. */
  lemma EarliestRouteWins(routes: seq<Route>, default: Handler, verb: Method, path: string, i: nat)
    requires i < |routes| && Hit(routes[i], verb, path)
    requires forall j :: 0 <= j < i ==> !Hit(routes[j], verb, path)
    ensures Resolve(routes, default, verb, path) == Ok(routes[i].handler)
  {
    var k := FirstHit(routes, verb, path);
    assert k.Some?;
    assert !(k.value < i) && !(i < k.value);
  }

  /**
    Lookup fails exactly when some route matches the path and none of the
    matching ones has the method.
   */
  lemma MethodNotAllowedExactly(routes: seq<Route>, default: Handler, verb: Method, path: string)
    ensures Resolve(routes, default, verb, path).Err? <==>
      (exists i :: 0 <= i < |routes| && Matches(routes[i].pattern, path))
      && (forall i :: 0 <= i < |routes| && Matches(routes[i].pattern, path) ==> routes[i].verb != verb)
  {
    match FirstHit(routes, verb, path)
    case Some(i) =>
      assert Resolve(routes, default, verb, path) == Ok(routes[i].handler);
      assert Matches(routes[i].pattern, path) && routes[i].verb == verb;
    case None =>
      PathKnown(routes, path);
  }

  /** The failure is a 405 whose message names the method, the path and the methods of the matching routes. */
  lemma NotAllowedError(routes: seq<Route>, default: Handler, verb: Method, path: string)
    requires Resolve(routes, default, verb, path).Err?
    ensures Resolve(routes, default, verb, path).error
      == HttpError(METHOD_NOT_ALLOWED, NotAllowedMessage(verb, path, AllowedIn(routes, path)))
  {
    var msg := NotAllowedMessage(verb, path, AllowedIn(routes, path));
    assert msg[0] == 'M';
    assert Resolve(routes, default, verb, path) == Err(Raise(MethodNotAllowed, Some(msg)));
  }

  /** Some method is allowed exactly when some route matches the path. */
  lemma PathKnown(routes: seq<Route>, path: string)
    ensures AllowedIn(routes, path) != {} <==> exists i :: 0 <= i < |routes| && Matches(routes[i].pattern, path)
  {
    if i :| 0 <= i < |routes| && Matches(routes[i].pattern, path) {
      AllowedInExactly(routes, path, routes[i].verb);
    }
    if AllowedIn(routes, path) != {} {
      var m :| m in AllowedIn(routes, path);
      AllowedInExactly(routes, path, m);
    }
  }

  /** A path no route matches goes to the default handler, whatever the method. */
  lemma UnknownPathGoesToDefault(routes: seq<Route>, default: Handler, verb: Method, path: string)
    requires forall i :: 0 <= i < |routes| ==> !Matches(routes[i].pattern, path)
    ensures Resolve(routes, default, verb, path) == Ok(default)
  {
    MethodNotAllowedExactly(routes, default, verb, path);
  }

  /** Registering more routes never changes the handler an earlier route already serves. */
  lemma LaterRoutesDoNotOverride(routes: seq<Route>, more: seq<Route>, default: Handler, verb: Method, path: string)
    requires FirstHit(routes, verb, path).Some?
    ensures Resolve(routes + more, default, verb, path) == Resolve(routes, default, verb, path)
  {
    var i := FirstHit(routes, verb, path).value;
    assert forall j :: 0 <= j < |routes| ==> (routes + more)[j] == routes[j];
    EarliestRouteWins(routes + more, default, verb, path, i);
  }

  /** The route table with its default handler. */
  class Router {
    var routes: seq<Route>
    var defaultHandler: Handler

    /** `Router()`: no routes, the not-found handler as default. */
    constructor ()
      ensures routes == [] && defaultHandler == NotFoundHandler
    {
      routes := [];
      defaultHandler := NotFoundHandler;
    }

    /** `add_route`: the route goes after every route registered before it. */
    method AddRoute(verb: Method, pattern: Pattern, handler: Handler)
      modifies this`routes
      ensures routes == old(routes) + [Route(verb, pattern, handler)]
    {
      routes := routes + [Route(verb, pattern, handler)];
    }

    /**
      `find_handler`: scan the routes in order, collecting the methods of
      those matching the path, and return the first one whose method is the
      request's. It changes nothing.
     */
    method FindHandler(req: Request) returns (r: Result<Handler, HttpError>)
      ensures r == Resolve(routes, defaultHandler, req.verb, req.path)
    {
      var allowed: set<Method> := {};
      var pathMatched := false;
      var i := 0;
      while i < |routes|
        invariant 0 <= i <= |routes|
        invariant allowed == AllowedIn(routes[..i], req.path)
        invariant pathMatched <==> allowed != {}
        invariant forall j :: 0 <= j < i ==> !Hit(routes[j], req.verb, req.path)
      {
        var route := routes[i];
        assert routes[..i + 1][..i] == routes[..i];
        if Matches(route.pattern, req.path) {
          pathMatched := true;
          allowed := allowed + {route.verb};
          if req.verb == route.verb {
            EarliestRouteWins(routes, defaultHandler, req.verb, req.path, i);
            return Ok(route.handler);
          }
        }
        i := i + 1;
      }
      assert routes[..i] == routes;
      if pathMatched {
        return Err(Raise(MethodNotAllowed, Some(NotAllowedMessage(req.verb, req.path, allowed))));
      }
      return Ok(defaultHandler);
    }
  }
}
