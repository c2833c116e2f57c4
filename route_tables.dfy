/**
 * The side bar's router map: the fixed `routerMap` object and the copy that
 * `updateRouterMapWithChats` extends with one route per stored chat.
 *
 * A JavaScript object is modelled as the sequence of its own properties in
 * `Object.keys` order. None of the keys used here is an array index, so that
 * order is insertion order; `Array.prototype.find` over the keys scans it.
 */
module RouteTables {
  import opened Wrappers
  import opened JsText
  import opened Persisted

  /** One property of the router map: a menu identifier and its URL path. */
  datatype Route = Route(key: string, path: string)

  type RouteTable = seq<Route>

  /** `Object.keys(t)` */
  function Keys(t: RouteTable): (ks: seq<string>)
    ensures |ks| == |t|
  {
    seq(|t|, i requires 0 <= i < |t| => t[i].key)
  }

  /** `Object.values(t)` */
  function Paths(t: RouteTable): (ps: seq<string>)
    ensures |ps| == |t|
  {
    seq(|t|, i requires 0 <= i < |t| => t[i].path)
  }

  predicate Distinct(s: seq<string>) {
    forall i, j | 0 <= i < j < |s| :: s[i] != s[j]
  }

  /**
   * `t[key]` for a key that is an own property or missing, with `undefined`
   * as `None`. Keys inherited from `Object.prototype` are not modelled.
   */
  function Get(t: RouteTable, key: string): (r: Option<string>)
    ensures r.None? <==> key !in Keys(t)
    ensures r.Some? ==> Route(key, r.value) in t
  {
    if t == [] then None
    else
      assert Keys(t) == [t[0].key] + Keys(t[1..]);
      if t[0].key == key then Some(t[0].path) else Get(t[1..], key)
  }

  /** A key is looked up in the first part of a table before the rest. */
  lemma {:induction false} GetAppend(a: RouteTable, b: RouteTable, key: string)
    ensures Get(a + b, key) == if key in Keys(a) then Get(a, key) else Get(b, key)
  {
    if a == [] {
      assert a + b == b;
    } else {
      assert (a + b)[0] == a[0];
      assert (a + b)[1..] == a[1..] + b;
      assert Keys(a) == [a[0].key] + Keys(a[1..]);
      GetAppend(a[1..], b, key);
    }
  }

  /**
   * `t[key] = path`: an existing property keeps its place and takes the new
   * value; a new property goes at the end.
   */
  function Assign(t: RouteTable, key: string, path: string): (r: RouteTable)
    ensures Get(r, key) == Some(path)
    ensures forall k | k != key :: Get(r, k) == Get(t, k)
    ensures key !in Keys(t) ==> r == t + [Route(key, path)]
  {
    if t == [] then [Route(key, path)]
    else
      assert Keys(t) == [t[0].key] + Keys(t[1..]);
      if t[0].key == key then
        var r := [Route(key, path)] + t[1..];
        assert r[1..] == t[1..];
        r
      else
        var rest := Assign(t[1..], key, path);
        var r := [t[0]] + rest;
        assert r[0] == t[0] && r[1..] == rest;
        assert key !in Keys(t) ==> r == [t[0]] + (t[1..] + [Route(key, path)]) == t + [Route(key, path)];
        r
  }

  /** The fixed `routerMap`, in declaration order. */
  function RouterMap(): RouteTable {
    [ Route("home", "/"),
      Route("channel", "/channel"),
      Route("token", "/token"),
      Route("redemption", "/redemption"),
      Route("topup", "/topup"),
      Route("user", "/user"),
      Route("log", "/log"),
      Route("midjourney", "/midjourney"),
      Route("setting", "/setting"),
      Route("about", "/about"),
      Route("detail", "/detail"),
      Route("pricing", "/pricing"),
      Route("task", "/task"),
      Route("playground", "/playground"),
      Route("personal", "/personal") ]
  }

  /**
   * The keys and the paths of `RouterMap()`, written out as proof aids;
   * `StaticRoutesWellFormed` checks that they are `Keys(RouterMap())` and
   * `Paths(RouterMap())`.
   */
  const StaticKeys: seq<string> :=
    [ "home", "channel", "token", "redemption", "topup", "user", "log", "midjourney",
      "setting", "about", "detail", "pricing", "task", "playground", "personal" ]

  const StaticPaths: seq<string> :=
    [ "/", "/channel", "/token", "/redemption", "/topup", "/user", "/log", "/midjourney",
      "/setting", "/about", "/detail", "/pricing", "/task", "/playground", "/personal" ]

  /** `'chat' + i` */
  function ChatKey(i: nat): string {
    "chat" + NatToString(i)
  }

  /** `'/chat/' + i` */
  function ChatPath(i: nat): string {
    "/chat/" + NatToString(i)
  }

  /** The routes for chats `0 .. n - 1`, in the order the loop adds them. */
  function ChatRoutes(n: nat): seq<Route> {
    seq(n, i requires 0 <= i < n => Route(ChatKey(i), ChatPath(i)))
  }

  /** The router map once `n` chats are known: the static routes, then the chat routes. */
  function RouteTableFor(n: nat): RouteTable {
    RouterMap() + ChatRoutes(n)
  }

  /**
   * The table `updateRouterMapWithChats(chats)` builds: chat routes are added
   * only for a non-empty array.
   */
  function RouterMapWithChats(chats: JsonValue): RouteTable {
    if chats.ArrayValue? && |chats.elements| > 0 then RouteTableFor(|chats.elements|) else RouterMap()
  }

  /**
   * The static routes have distinct non-empty keys and distinct paths; no key
   * starts with `chat` and no path with `/chat/`, so chat routes never
   * overwrite or shadow one of them.
   */
  lemma StaticRoutesWellFormed()
    ensures Distinct(Keys(RouterMap())) && Distinct(Paths(RouterMap()))
    ensures forall k <- Keys(RouterMap()) :: k != "" && !StartsWith(k, "chat")
    ensures forall p <- Paths(RouterMap()) :: !StartsWith(p, "/chat/")
  {
    assert Keys(RouterMap()) == StaticKeys;
    assert Paths(RouterMap()) == StaticPaths;
    StaticKeysDistinct();
    StaticPathsDistinct();
    StaticKeysNotChat();
    StaticPathsNotChat();
  }

  lemma StaticKeysDistinct()
    ensures Distinct(StaticKeys)
  {
  }

  lemma StaticPathsDistinct()
    ensures Distinct(StaticPaths)
  {
  }

  lemma StaticKeysNotChat()
    ensures forall k <- StaticKeys :: k != "" && !StartsWith(k, "chat")
  {
    forall k <- StaticKeys
      ensures k != "" && !StartsWith(k, "chat")
    {
      NotPrefixedAt(k, "chat", if k == "channel" then 3 else 0);
    }
  }

  lemma StaticPathsNotChat()
    ensures forall p <- StaticPaths :: !StartsWith(p, "/chat/")
  {
    forall p <- StaticPaths
      ensures !StartsWith(p, "/chat/")
    {
      NotPrefixedAt(p, "/chat/", if p == "/channel" then 4 else if p == "/" then 1 else 2);
    }
  }

  /** Text that differs from `prefix` at position `i` does not start with it. */
  lemma NotPrefixedAt(s: string, prefix: string, i: nat)
    requires i < |prefix| && (i >= |s| || s[i] != prefix[i])
    ensures !StartsWith(s, prefix)
  {
    if |prefix| <= |s| {
      assert s[..|prefix|][i] == s[i];
    }
  }

  lemma ChatKeyInjective(i: nat, j: nat)
    requires ChatKey(i) == ChatKey(j)
    ensures i == j
  {
    assert ChatKey(i)[4..] == NatToString(i);
    assert ChatKey(j)[4..] == NatToString(j);
    NatToStringInjective(i, j);
  }

  lemma ChatPathInjective(i: nat, j: nat)
    requires ChatPath(i) == ChatPath(j)
    ensures i == j
  {
    assert ChatPath(i)[6..] == NatToString(i);
    assert ChatPath(j)[6..] == NatToString(j);
    NatToStringInjective(i, j);
  }

  lemma ChatKeyShape(i: nat)
    ensures StartsWith(ChatKey(i), "chat") && |ChatKey(i)| > 4
  {
    assert ChatKey(i)[..4] == "chat";
  }

  lemma ChatPathShape(i: nat)
    ensures StartsWith(ChatPath(i), "/chat/")
    ensures LastSegment(ChatPath(i)) == NatToString(i)
  {
    assert ChatPath(i)[..6] == "/chat/";
    assert ChatPath(i) == "/chat" + "/" + NatToString(i);
    LastSegmentAfterSlash("/chat", NatToString(i));
  }

  /**
   * After `n` chats are loaded, keys are still pairwise distinct and non-empty,
   * and paths are pairwise distinct: at most one key has a given path.
   */
  lemma RouteTableForWellFormed(n: nat)
    ensures Distinct(Keys(RouteTableFor(n)))
    ensures Distinct(Paths(RouteTableFor(n)))
    ensures forall k <- Keys(RouteTableFor(n)) :: k != ""
  {
    var t := RouteTableFor(n);
    forall i, j | 0 <= i < j < |t|
      ensures t[i].key != t[j].key && t[i].path != t[j].path
    {
      RoutesDiffer(n, i, j);
    }
    forall k <- Keys(t)
      ensures k != ""
    {
      var i :| 0 <= i < |t| && t[i].key == k;
      RouteKeyNonEmpty(n, i);
    }
  }

  /** Two different routes of the table for `n` chats differ in key and in path. */
  lemma RoutesDiffer(n: nat, i: nat, j: nat)
    requires i < j < |RouteTableFor(n)|
    ensures RouteTableFor(n)[i].key != RouteTableFor(n)[j].key
    ensures RouteTableFor(n)[i].path != RouteTableFor(n)[j].path
  {
    var t, s, routes := RouteTableFor(n), |RouterMap()|, ChatRoutes(n);
    if j < s {
      StaticRoutesWellFormed();
      assert Keys(RouterMap())[i] == t[i].key && Keys(RouterMap())[j] == t[j].key;
      assert Paths(RouterMap())[i] == t[i].path && Paths(RouterMap())[j] == t[j].path;
    } else if i < s {
      assert t[j] == routes[j - s];
      StaticAndChatRouteDiffer(i, j - s);
    } else {
      assert t[i] == routes[i - s] && t[j] == routes[j - s];
      var a: nat, b: nat := i - s, j - s;
      if t[i].key == t[j].key {
        ChatKeyInjective(a, b);
      } else if t[i].path == t[j].path {
        ChatPathInjective(a, b);
      }
    }
  }

  /** A static route and a chat route differ in key and in path. */
  lemma StaticAndChatRouteDiffer(i: nat, c: nat)
    requires i < |RouterMap()|
    ensures RouterMap()[i].key != ChatKey(c) && RouterMap()[i].path != ChatPath(c)
  {
    StaticRoutesWellFormed();
    assert Keys(RouterMap())[i] == RouterMap()[i].key;
    assert Paths(RouterMap())[i] == RouterMap()[i].path;
    assert StartsWith(ChatKey(c), "chat");
    assert StartsWith(ChatPath(c), "/chat/");
  }

  lemma RouteKeyNonEmpty(n: nat, i: nat)
    requires i < |RouteTableFor(n)|
    ensures RouteTableFor(n)[i].key != ""
  {
    var t, s := RouteTableFor(n), |RouterMap()|;
    StaticRoutesWellFormed();
    if i < s {
      assert Keys(RouterMap())[i] == t[i].key;
    } else {
      assert t[i] == ChatRoutes(n)[i - s];
      ChatKeyShape(i - s);
    }
  }

  /** Loading chats never changes what a static key maps to. */
  lemma RebuiltKeepsStatic(n: nat, key: string)
    requires key in Keys(RouterMap())
    ensures Get(RouteTableFor(n), key) == Get(RouterMap(), key)
  {
    GetAppend(RouterMap(), ChatRoutes(n), key);
  }

  /**
   * After `n` chats are loaded, `chat<i>` maps to `/chat/<i>` exactly when
   * `i < n`.
   */
  lemma RebuiltChatRoute(n: nat, i: nat)
    ensures Get(RouteTableFor(n), ChatKey(i)) == if i < n then Some(ChatPath(i)) else None
  {
    StaticRoutesWellFormed();
    ChatKeyShape(i);
    GetAppend(RouterMap(), ChatRoutes(n), ChatKey(i));
    var routes := ChatRoutes(n);
    if i < n {
      assert Keys(routes)[i] == ChatKey(i);
    }
    var r := Get(routes, ChatKey(i));
    if r.Some? {
      var j :| 0 <= j < n && routes[j] == Route(ChatKey(i), r.value);
      ChatKeyInjective(i, j);
    }
  }

  /** A key that is neither static nor one of `chat0 .. chat<n-1>` is absent. */
  lemma RebuiltHasNothingElse(n: nat, key: string)
    requires key !in Keys(RouterMap())
    requires forall i | 0 <= i < n :: key != ChatKey(i)
    ensures Get(RouteTableFor(n), key) == None
  {
    GetAppend(RouterMap(), ChatRoutes(n), key);
  }

  /** The chat key about to be added is not yet in the table. */
  lemma ChatKeyIsFresh(i: nat)
    ensures ChatKey(i) !in Keys(RouteTableFor(i))
    ensures RouteTableFor(i) + [Route(ChatKey(i), ChatPath(i))] == RouteTableFor(i + 1)
  {
    RebuiltChatRoute(i, i);
    assert ChatRoutes(i + 1) == ChatRoutes(i) + [Route(ChatKey(i), ChatPath(i))];
  }

  /**
   * The rebuilt table depends on the chat list only through its length, so
   * rebuilding again from the same list gives the same table.
   */
  lemma RebuildDependsOnlyOnLength(a: seq<Record>, b: seq<Record>)
    requires |a| == |b|
    ensures RouterMapWithChats(ArrayValue(a)) == RouterMapWithChats(ArrayValue(b))
    ensures RouterMapWithChats(ArrayValue(a)) == RouteTableFor(|a|)
  {
  }

  /** A non-array or an empty array yields exactly the static table. */
  lemma RebuildWithoutChats(chats: JsonValue)
    requires chats.NonArray? || chats.elements == []
    ensures RouterMapWithChats(chats) == RouterMap()
  {
  }

  /** `Object.keys(t).find(key => t[key] === path)` */
  function FindKeyByPath(t: RouteTable, path: string): (r: Option<string>)
    ensures r.None? <==> path !in Paths(t)
    ensures r.Some? ==> Route(r.value, path) in t
  {
    if t == [] then None
    else
      assert Paths(t) == [t[0].path] + Paths(t[1..]);
      if t[0].path == path then Some(t[0].key) else FindKeyByPath(t[1..], path)
  }

  /** The key found is that of the first route, in key order, with the path. */
  lemma {:induction false} FindKeyByPathIsFirst(t: RouteTable, path: string)
    requires FindKeyByPath(t, path).Some?
    ensures exists i | 0 <= i < |t| ::
      t[i] == Route(FindKeyByPath(t, path).value, path) && forall m | 0 <= m < i :: t[m].path != path
  {
    if t[0].path != path {
      FindKeyByPathIsFirst(t[1..], path);
      var i :| 0 <= i < |t| - 1 && t[1..][i] == Route(FindKeyByPath(t, path).value, path)
        && forall m | 0 <= m < i :: t[1..][m].path != path;
      assert t[i + 1] == t[1..][i];
      assert forall m | 1 <= m < i + 1 :: t[m] == t[1..][m - 1];
    }
  }

  /** With distinct paths, the key found for a path is the one that has it. */
  lemma FindUniquePath(t: RouteTable, i: nat)
    requires Distinct(Paths(t)) && i < |t|
    ensures FindKeyByPath(t, t[i].path) == Some(t[i].key)
  {
    var path := t[i].path;
    assert Paths(t)[i] == path;
    var r := FindKeyByPath(t, path);
    assert r.Some?;
    FindKeyByPathIsFirst(t, path);
    var j: nat :| j < |t| && t[j] == Route(r.value, path) && forall m | 0 <= m < j :: t[m].path != path;
    assert j <= i;
    DistinctAt(Paths(t), i, j);
  }

  lemma DistinctAt(s: seq<string>, a: nat, b: nat)
    requires Distinct(s) && a < |s| && b < |s| && s[a] == s[b]
    ensures a == b
  {
  }

  /** With distinct keys, looking up a route's key gives its path. */
  lemma GetUnique(t: RouteTable, i: nat)
    requires Distinct(Keys(t)) && i < |t|
    ensures Get(t, t[i].key) == Some(t[i].path)
  {
    var key := t[i].key;
    assert Keys(t)[i] == key;
    var r := Get(t, key);
    var j: nat :| j < |t| && t[j] == Route(key, r.value);
    DistinctAt(Keys(t), i, j);
  }

  /** A path is searched for in the first part of a table before the rest. */
  lemma {:induction false} FindAppend(a: RouteTable, b: RouteTable, path: string)
    ensures FindKeyByPath(a + b, path) == if path in Paths(a) then FindKeyByPath(a, path) else FindKeyByPath(b, path)
  {
    if a == [] {
      assert a + b == b;
    } else {
      assert (a + b)[0] == a[0];
      assert (a + b)[1..] == a[1..] + b;
      assert Paths(a) == [a[0].path] + Paths(a[1..]);
      FindAppend(a[1..], b, path);
    }
  }

  /** A path under `/chat/` whose rest is not a run of digits belongs to no route. */
  lemma ChatShapedNotRoute(n: nat, p: string)
    requires StartsWith(p, "/chat/") && !IsDecimalDigits(p[6..])
    ensures p !in Paths(RouteTableFor(n))
  {
    var t, s := RouteTableFor(n), |RouterMap()|;
    StaticRoutesWellFormed();
    forall j | 0 <= j < |t|
      ensures t[j].path != p
    {
      if j < s {
        assert Paths(RouterMap())[j] == t[j].path;
      } else {
        assert t[j].path[6..] == NatToString(j - s);
      }
    }
  }

  /** A path not under `/chat/` belongs to a rebuilt table exactly when it is static. */
  lemma NonChatPathInRebuilt(n: nat, p: string)
    requires !StartsWith(p, "/chat/")
    ensures p in Paths(RouteTableFor(n)) <==> p in Paths(RouterMap())
  {
    var t, s := RouteTableFor(n), |RouterMap()|;
    forall j | s <= j < |t|
      ensures t[j].path != p
    {
      ChatPathShape(j - s);
    }
    forall j | 0 <= j < s
      ensures Paths(t)[j] == Paths(RouterMap())[j]
    {
    }
  }

  /** `/chat/<i>` is a path of the table for `n` chats exactly when `i < n`. */
  lemma RebuiltChatPath(n: nat, i: nat)
    ensures ChatPath(i) in Paths(RouteTableFor(n)) <==> i < n
  {
    var t, s, routes := RouteTableFor(n), |RouterMap()|, ChatRoutes(n);
    if i < n {
      assert t[s + i] == routes[i];
      assert Paths(t)[s + i] == ChatPath(i);
    }
    ChatPathNotStatic(i);
    forall j | 0 <= j < s
      ensures Paths(t)[j] != ChatPath(i)
    {
      assert Paths(t)[j] == Paths(RouterMap())[j];
    }
    forall j | s <= j < |t| && Paths(t)[j] == ChatPath(i)
      ensures j - s == i
    {
      assert t[j] == routes[j - s];
      ChatPathInjective(i, j - s);
    }
  }

  /** No chat path is one of the fixed paths. */
  lemma ChatPathNotStatic(i: nat)
    ensures ChatPath(i) !in Paths(RouterMap())
  {
    StaticRoutesWellFormed();
    assert StartsWith(ChatPath(i), "/chat/");
  }
}
