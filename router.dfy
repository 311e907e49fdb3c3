/** The router: a request URI becomes a controller/action path, looked up in
    the configured route table, and the remaining path segments become request
    parameters. The route table is a parameter; $_GET is an association list
    that getRoute extends ($_REQUEST receives the same assignments). */
module Router {
  import opened Php
  import opened Assoc

  /** The URI up to its first '?'. */
  function Prefix(uri: string): (r: string)
    ensures '?' !in r && |r| <= |uri| && r == uri[..|r|]
    ensures |r| == |uri| || uri[|r|] == '?'
  {
    if |uri| == 0 || uri[0] == '?' then ""
    else [uri[0]] + Prefix(uri[1..])
  }

  /** The path segments: the URI before '?', trimmed of '/', split on '/'. */
  function Segments(uri: string): seq<string>
  {
    Split(Trim(Prefix(uri), '/'), '/')
  }

  /** `array_shift($route) ?: ''`: the first segment, or "" when there is none
      or it is falsy ("" or "0"). */
  function Head(segs: seq<string>): string
  {
    if |segs| > 0 && Truthy(segs[0]) then segs[0] else ""
  }

  /** What array_shift leaves. */
  function Tail(segs: seq<string>): seq<string>
  {
    if |segs| > 0 then segs[1..] else []
  }

  /** The route path: "/" and the controller/action text trimmed of '/'. */
  function RoutePath(controller: string, action: string): string
  {
    "/" + Trim(controller + "/" + action, '/')
  }

  /** The rest of the segments read as key/value pairs into the parameters; a
      lone last key gets null. */
  function AssignPairs(get: seq<(string, Option<string>)>, segs: seq<string>): seq<(string, Option<string>)>
    decreases |segs|
  {
    if |segs| == 0 then get
    else if |segs| == 1 then Put(get, segs[0], None)
    else AssignPairs(Put(get, segs[0], Some(segs[1])), segs[2..])
  }

  /** map($path): the configured route when the path is set (isset: present and
      not null), the error route otherwise. */
  function Map(path: string, routes: seq<(string, Value)>): (r: Value)
    ensures Get(routes, path).Some? && Get(routes, path).value != Null ==> r == Get(routes, path).value
    ensures Get(routes, path).None? || Get(routes, path).value == Null ==> r == NotFound
  {
    match Get(routes, path)
    case Some(v) => if v != Null then v else NotFound
    case None => NotFound
  }

  /** [ 'error', '_404' ]. */
  const NotFound: Value := Arr([("0", Str("error")), ("1", Str("_404"))])

  /** getRoute(): the route the URI maps to, and the parameters extended with
      the pairs after controller and action. */
  method GetRoute(uri: string, routes: seq<(string, Value)>, get: seq<(string, Option<string>)>)
    returns (route: Value, params: seq<(string, Option<string>)>)
    ensures var segs := Segments(uri);
      route == Map(RoutePath(Head(segs), Head(Tail(segs))), routes) &&
      params == AssignPairs(get, Tail(Tail(segs)))
  {
    var rest := Split(Trim(Prefix(uri), '/'), '/');
    var controller := "";
    if |rest| > 0 {
      if Truthy(rest[0]) {
        controller := rest[0];
      }
      rest := rest[1..];
    }
    var action := "";
    if |rest| > 0 {
      if Truthy(rest[0]) {
        action := rest[0];
      }
      rest := rest[1..];
    }
    var path := "/" + Trim(controller + "/" + action, '/');
    params := get;
    ghost var pairs := rest;
    while |rest| > 0
      invariant AssignPairs(params, rest) == AssignPairs(get, pairs)
      decreases |rest|
    {
      var key := rest[0];
      rest := rest[1..];
      var value: Option<string> := None;
      if |rest| > 0 {
        value := Some(rest[0]);
        rest := rest[1..];
      }
      params := Put(params, key, value);
    }
    route := Map(path, routes);
  }

  // ---------------------------------------------------------------------------
  // Properties of the path

  /** Everything from the first '?' is dropped. */
  lemma PrefixDropsQuery(path: string, query: string)
    requires '?' !in path
    ensures Prefix(path + "?" + query) == path
  {
    assert (path + "?" + query)[|path|] == '?';
  }

  /** No segment holds a '/'. */
  lemma {:induction false} SplitParts(s: string, d: char)
    ensures forall i :: 0 <= i < |Split(s, d)| ==> d !in Split(s, d)[i]
    decreases |s|
  {
    if |s| > 0 {
      SplitParts(s[1..], d);
      if s[0] != d {
        var r := Split(s[1..], d);
        assert d !in [s[0]] + r[0];
      }
    }
  }

  lemma TrimUnchanged(s: string, c: char)
    requires |s| > 0 && s[0] != c && s[|s| - 1] != c
    ensures Trim(s, c) == s
  {
  }

  /** The path for each combination of missing controller and action: both
      given, "/c/a"; only the controller, "/c"; only the action, "/a"; neither,
      "/". */
  lemma PathShapes(controller: string, action: string)
    requires '/' !in controller && '/' !in action
    ensures controller != "" && action != "" ==> RoutePath(controller, action) == "/" + controller + "/" + action
    ensures controller != "" && action == "" ==> RoutePath(controller, action) == "/" + controller
    ensures controller == "" && action != "" ==> RoutePath(controller, action) == "/" + action
    ensures controller == "" && action == "" ==> RoutePath(controller, action) == "/"
  {
    var s := controller + "/" + action;
    if controller != "" && action != "" {
      assert s[0] == controller[0] && s[|s| - 1] == action[|action| - 1];
      TrimUnchanged(s, '/');
    } else if controller != "" {
      assert s == controller + "/";
      assert TrimLeft(s, '/') == s;
      assert s[..|s| - 1] == controller;
      assert TrimRight(controller, '/') == controller;
    } else if action != "" {
      assert s == "/" + action;
      assert s[1..] == action;
      assert TrimLeft(action, '/') == action;
      assert TrimRight(action, '/') == action;
    } else {
      assert s == "/";
      assert s[1..] == "";
    }
  }

  /** A URI with no segments, such as "", "/" or "/?x=1", maps to the path "/". */
  lemma EmptyUriIsRoot(uri: string)
    requires Trim(Prefix(uri), '/') == ""
    ensures RoutePath(Head(Segments(uri)), Head(Tail(Segments(uri)))) == "/"
    ensures Tail(Tail(Segments(uri))) == []
  {
    assert Segments(uri) == [""];
    assert "" + "/" + "" == "/";
    assert "/"[1..] == "";
  }

  /** The controller and action are the first two segments unless those are
      missing or falsy, and never hold a '/'. */
  lemma ControllerAndAction(uri: string)
    ensures var segs := Segments(uri);
      '/' !in Head(segs) && '/' !in Head(Tail(segs)) &&
      (|segs| >= 1 && Truthy(segs[0]) ==> Head(segs) == segs[0]) &&
      (|segs| >= 2 && Truthy(segs[1]) ==> Head(Tail(segs)) == segs[1])
  {
    var segs := Segments(uri);
    SplitParts(Trim(Prefix(uri), '/'), '/');
    assert forall i :: 0 <= i < |segs| ==> '/' !in segs[i];
    if |segs| >= 2 {
      assert Tail(segs) == segs[1..] && Tail(segs)[0] == segs[1];
    }
  }

  // ---------------------------------------------------------------------------
  // Properties of the parameters

  /** A key that is never at a key position keeps its old value. */
  lemma {:induction false} AssignUntouched(get: seq<(string, Option<string>)>, segs: seq<string>, k: string)
    requires forall i :: 0 <= i < |segs| && i % 2 == 0 ==> segs[i] != k
    ensures Get(AssignPairs(get, segs), k) == Get(get, k)
    decreases |segs|
  {
    if |segs| > 1 {
      assert segs[0] != k;
      KeysAfterPair(segs, k, -1);
      AssignUntouched(Put(get, segs[0], Some(segs[1])), segs[2..], k);
    } else if |segs| == 1 {
      assert segs[0] != k;
    }
  }

  /** Dropping the first pair moves every key position down by two. */
  lemma KeysAfterPair(segs: seq<string>, k: string, from: int)
    requires |segs| >= 2
    requires forall j :: 0 <= j < |segs| && from < j && j % 2 == 0 ==> segs[j] != k
    ensures forall j :: 0 <= j < |segs| - 2 && from - 2 < j && j % 2 == 0 ==> segs[2..][j] != k
  {
    forall j | 0 <= j < |segs| - 2 && from - 2 < j && j % 2 == 0
      ensures segs[2..][j] != k
    {
      assert segs[2..][j] == segs[j + 2] && (j + 2) % 2 == 0;
    }
  }

  /** A repeated key keeps the value of its last pair, and a lone last key gets
      null. */
  lemma {:induction false} AssignLast(get: seq<(string, Option<string>)>, segs: seq<string>, i: nat)
    requires i < |segs| && i % 2 == 0
    requires forall j :: i < j < |segs| && j % 2 == 0 ==> segs[j] != segs[i]
    ensures Get(AssignPairs(get, segs), segs[i]) == Some(if i + 1 < |segs| then Some(segs[i + 1]) else None)
    decreases |segs|
  {
    if |segs| == 1 {
    } else if i == 0 {
      KeysAfterPair(segs, segs[0], 0);
      AssignUntouched(Put(get, segs[0], Some(segs[1])), segs[2..], segs[0]);
    } else {
      AssignLastLater(get, segs, i);
    }
  }

  lemma {:induction false} AssignLastLater(get: seq<(string, Option<string>)>, segs: seq<string>, i: nat)
    requires 2 <= i < |segs| && i % 2 == 0
    requires forall j :: i < j < |segs| && j % 2 == 0 ==> segs[j] != segs[i]
    ensures Get(AssignPairs(get, segs), segs[i]) == Some(if i + 1 < |segs| then Some(segs[i + 1]) else None)
    decreases |segs|, 0
  {
    var rest := segs[2..];
    var get' := Put(get, segs[0], Some(segs[1]));
    KeysAfterPairAt(segs, i);
    AssignLast(get', rest, i - 2);
    assert i - 2 + 1 < |rest| <==> i + 1 < |segs|;
    assert AssignPairs(get, segs) == AssignPairs(get', rest);
  }

  /** The same, for a key at an even position i >= 2 of the remaining pairs. */
  lemma KeysAfterPairAt(segs: seq<string>, i: nat)
    requires 2 <= i < |segs| && i % 2 == 0
    requires forall j :: i < j < |segs| && j % 2 == 0 ==> segs[j] != segs[i]
    ensures var rest := segs[2..];
      rest[i - 2] == segs[i] && (i + 1 < |segs| ==> rest[i - 1] == segs[i + 1]) &&
      (i - 2) % 2 == 0 && forall j :: i - 2 < j < |rest| && j % 2 == 0 ==> rest[j] != rest[i - 2]
  {
    var rest := segs[2..];
    forall j | i - 2 < j < |rest| && j % 2 == 0
      ensures rest[j] != rest[i - 2]
    {
      assert rest[j] == segs[j + 2] && (j + 2) % 2 == 0;
    }
  }

  /** Assigning pairs keeps the parameters free of duplicate keys. */
  lemma {:induction false} AssignDistinct(get: seq<(string, Option<string>)>, segs: seq<string>)
    requires Distinct(get)
    ensures Distinct(AssignPairs(get, segs))
    decreases |segs|
  {
    if |segs| == 1 {
      PutDistinct(get, segs[0], None);
    } else if |segs| > 1 {
      PutDistinct(get, segs[0], Some(segs[1]));
      AssignDistinct(Put(get, segs[0], Some(segs[1])), segs[2..]);
    }
  }

  // ---------------------------------------------------------------------------
  // Reverse lookup

  /** `$route == [$controller, $action]`: a two-element array whose elements 0
      and 1 loosely equal the controller and the action. */
  predicate Matches(route: Value, controller: string, action: string)
  {
    route.Arr? && |route.entries| == 2 &&
    Get(route.entries, "0").Some? && LooseEqualsString(controller, Get(route.entries, "0").value) &&
    Get(route.entries, "1").Some? && LooseEqualsString(action, Get(route.entries, "1").value)
  }

  /** The index of the first route that matches, or the table's length. */
  function FirstMatch(routes: seq<(string, Value)>, controller: string, action: string): (i: nat)
    ensures i <= |routes|
    ensures i < |routes| ==> Matches(routes[i].1, controller, action)
    ensures forall j :: 0 <= j < i ==> !Matches(routes[j].1, controller, action)
  {
    if |routes| == 0 then 0
    else if Matches(routes[0].1, controller, action) then 0
    else 1 + FirstMatch(routes[1..], controller, action)
  }

  /** urlFor($controller, $action, $params): the path of the first route equal
      to [controller, action], or null. The parameters are not used. */
  function UrlFor(controller: string, action: string, routes: seq<(string, Value)>): (r: Option<string>)
    ensures r.None? <==> forall i :: 0 <= i < |routes| ==> !Matches(routes[i].1, controller, action)
    ensures r.Some? ==>
      exists i :: (0 <= i < |routes| && routes[i].0 == r.value && Matches(routes[i].1, controller, action) &&
                   forall j :: 0 <= j < i ==> !Matches(routes[j].1, controller, action))
  {
    var i := FirstMatch(routes, controller, action);
    if i < |routes| then Some(routes[i].0) else None
  }

  /** Reverse lookup then lookup: the path urlFor gives maps back to a route
      equal to [controller, action]. */
  lemma UrlForThenMap(controller: string, action: string, routes: seq<(string, Value)>)
    requires Distinct(routes)
    requires UrlFor(controller, action, routes).Some?
    ensures Matches(Map(UrlFor(controller, action, routes).value, routes), controller, action)
  {
    var i := FirstMatch(routes, controller, action);
    DistinctGet(routes, i);
  }

  /** Lookup then reverse lookup: when a configured path maps to a route equal
      to [controller, action], urlFor finds a path. */
  lemma MapThenUrlFor(path: string, controller: string, action: string, routes: seq<(string, Value)>)
    requires Get(routes, path).Some? && Get(routes, path).value != Null
    requires Matches(Map(path, routes), controller, action)
    ensures UrlFor(controller, action, routes).Some?
  {
    var i :| 0 <= i < |routes| && routes[i] == (path, Get(routes, path).value);
    assert Matches(routes[i].1, controller, action);
  }

  /** In a table without duplicate paths, the entry at index i is what its path
      looks up. */
  lemma {:induction false} DistinctGet<V>(a: seq<(string, V)>, i: nat)
    requires Distinct(a) && i < |a|
    ensures Get(a, a[i].0) == Some(a[i].1)
    decreases i
  {
    if i > 0 {
      assert Keys(a[1..])[i - 1] == a[i].0;
      DistinctGet(a[1..], i - 1);
      assert a[1..][i - 1] == a[i];
    }
  }
}
