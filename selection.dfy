/**
 * The route-selection effect of the side bar: which menu key becomes
 * selected when the location or the router map changes.
 */
module Selection {
  import opened Wrappers
  import opened JsText
  import opened RouteTables

  /** JavaScript truthiness of a key that may be `undefined`: `undefined` and `''` are falsy. */
  predicate Truthy(k: Option<string>) {
    k.Some? && k.value != ""
  }

  /**
   * `matchingKey`: the key whose path is exactly `path`; failing that, for a
   * path under `/chat/`, `chat` followed by the last segment when `isNaN`
   * returns false for it (the segment is numeric), or the chat group `chat`
   * otherwise.
   */
  function MatchingKey(path: string, t: RouteTable): Option<string> {
    var exact := FindKeyByPath(t, path);
    if !Truthy(exact) && StartsWith(path, "/chat/") then
      var chatIndex := LastSegment(path);
      Some(if JsNumeric(chatIndex) then "chat" + chatIndex else "chat")
    else
      exact
  }

  /**
   * `selectedKeys` after the route-selection effect runs while `prev` is
   * selected: `[matchingKey]` when there is one, `prev` otherwise.
   */
  function NextSelection(path: string, t: RouteTable, prev: seq<string>): (r: seq<string>)
    ensures r == prev || (|r| == 1 && r[0] != "")
  {
    var m := MatchingKey(path, t);
    if Truthy(m) then [m.value] else prev
  }

  /** With distinct paths, the route whose path is the location is selected. */
  lemma SelectsExactMatch(path: string, t: RouteTable, prev: seq<string>, i: nat)
    requires Distinct(Paths(t)) && i < |t| && t[i].path == path && t[i].key != ""
    ensures NextSelection(path, t, prev) == [t[i].key]
  {
    FindUniquePath(t, i);
  }

  /**
   * When the location is one of the table's paths (and keys and paths are
   * distinct and keys non-empty), exactly one key is selected and the table
   * maps it to the location.
   */
  lemma SelectedKeyMapsToPath(path: string, t: RouteTable, prev: seq<string>)
    requires Distinct(Keys(t)) && Distinct(Paths(t))
    requires forall k <- Keys(t) :: k != ""
    requires path in Paths(t)
    ensures |NextSelection(path, t, prev)| == 1
    ensures Get(t, NextSelection(path, t, prev)[0]) == Some(path)
  {
    var i: nat :| i < |t| && Paths(t)[i] == path;
    assert Keys(t)[i] == t[i].key;
    assert t[i].key in Keys(t);
    SelectsExactMatch(path, t, prev, i);
    GetUnique(t, i);
  }

  /**
   * A chat-shaped location that no route has selects `chat<segment>` when
   * the last segment is numeric for `isNaN`, and the chat group otherwise,
   * whether or not that chat route exists.
   */
  lemma ChatFallback(path: string, t: RouteTable, prev: seq<string>)
    requires path !in Paths(t) && StartsWith(path, "/chat/")
    ensures var seg := LastSegment(path);
      NextSelection(path, t, prev) == [if JsNumeric(seg) then "chat" + seg else "chat"]
  {
  }

  /** A location that no route has and that is not under `/chat/` keeps the selection. */
  lemma UnmatchedKeepsSelection(path: string, t: RouteTable, prev: seq<string>)
    requires path !in Paths(t) && !StartsWith(path, "/chat/")
    ensures NextSelection(path, t, prev) == prev
  {
  }

  /** Running the effect again for the same location and table changes nothing. */
  lemma NextSelectionIdempotent(path: string, t: RouteTable, prev: seq<string>)
    ensures NextSelection(path, t, NextSelection(path, t, prev)) == NextSelection(path, t, prev)
  {
  }

  /**
   * On mount the effect first runs with the static router map and then,
   * once the chat routes are in, again with the rebuilt one; the result is
   * the same as a single run with the rebuilt map.
   */
  lemma MountSelectionSettles(path: string, n: nat, prev: seq<string>)
    ensures NextSelection(path, RouteTableFor(n), NextSelection(path, RouterMap(), prev))
         == NextSelection(path, RouteTableFor(n), prev)
  {
    var t0, tn := RouterMap(), RouteTableFor(n);
    FindAppend(t0, ChatRoutes(n), path);
    StaticRoutesWellFormed();
    var exact := FindKeyByPath(t0, path);
    if exact.Some? {
      var i: nat :| i < |t0| && t0[i] == Route(exact.value, path);
      assert Keys(t0)[i] == exact.value;
    }
  }

  /** Exact matches in a table holding two chats: a static route and a chat route. */
  lemma ExactMatchExamples(prev: seq<string>)
    ensures NextSelection("/token", RouteTableFor(2), prev) == ["token"]
    ensures NextSelection("/chat/1", RouteTableFor(2), prev) == ["chat1"]
  {
    var t := RouteTableFor(2);
    RouteTableForWellFormed(2);
    assert t[2] == Route("token", "/token");
    SelectsExactMatch("/token", t, prev, 2);
    assert NatToString(1) == "1";
    assert t[16] == Route("chat1", "/chat/1");
    SelectsExactMatch("/chat/1", t, prev, 16);
  }

  /**
   * The route of a chat the table does not hold yet is still selected by
   * its key, through the fallback.
   */
  lemma ChatBeyondTable(n: nat, i: nat, prev: seq<string>)
    requires n <= i
    ensures NextSelection(ChatPath(i), RouteTableFor(n), prev) == [ChatKey(i)]
  {
    ChatPathShape(i);
    RebuiltChatPath(n, i);
    NatToStringIsNumeric(i);
    ChatFallback(ChatPath(i), RouteTableFor(n), prev);
  }

  /** `/chat/3` selects `chat3` although the table holds only `chat0` and `chat1`. */
  lemma ChatBeyondTableExample(prev: seq<string>)
    ensures NextSelection("/chat/3", RouteTableFor(2), prev) == ["chat3"]
  {
    ChatBeyondTable(2, 3, prev);
    assert NatToString(3) == "3";
    assert ChatPath(3) == "/chat/3" && ChatKey(3) == "chat3";
  }

  /** A last segment that `isNaN` rejects selects the chat group. */
  lemma NonNumericSegmentExample(prev: seq<string>)
    ensures NextSelection("/chat/" + "abc", RouteTableFor(2), prev) == ["chat"]
  {
    AlphabeticIsNotNumeric("abc");
    assert !IsDigit("abc"[0]);
    NonNumericChatSegment(2, "abc", prev);
  }

  /** `Infinity` passes `isNaN`, so it gives a key of its own. */
  lemma InfinitySegmentExample(prev: seq<string>)
    ensures NextSelection("/chat/" + "Infinity", RouteTableFor(2), prev) == ["chat" + "Infinity"]
  {
    AlphabeticIsNotNumeric("Infinity");
    assert !IsDigit("Infinity"[0]);
    NumericChatSegment(2, "Infinity", prev);
  }

  /**
   * A segment with an exponent, such as `1e3`, is numeric without being a
   * run of digits: it names no chat route yet gets a key of its own.
   */
  lemma ExponentChatSegment(n: nat, m: string, e: string, prev: seq<string>)
    requires IsDecimalDigits(m) && IsDecimalDigits(e)
    ensures NextSelection("/chat/" + (m + "e" + e), RouteTableFor(n), prev) == ["chat" + (m + "e" + e)]
  {
    ExponentIsNumeric(m, e);
    var seg := m + "e" + e;
    assert seg[|m|] == 'e';
    assert '/' !in seg by {
      forall i | 0 <= i < |seg| ensures seg[i] != '/' {
        if i < |m| { assert seg[i] == m[i]; } else if i > |m| { assert seg[i] == e[i - |m| - 1]; }
      }
    }
    NumericChatSegment(n, seg, prev);
  }

  /** An empty last segment counts as numeric and gives `'chat' + ''`. */
  lemma EmptySegmentExamples(prev: seq<string>)
    ensures NextSelection("/chat/", RouteTableFor(2), prev) == ["chat"]
    ensures NextSelection("/chat/3/", RouteTableFor(2), prev) == ["chat"]
  {
    EmptyIsNumeric();
    NumericChatSegment(2, "", prev);
    assert "/chat/" + "" == "/chat/";
    assert "chat" + "" == "chat";
    var p := "/chat/3/";
    LastSegmentAfterSlash("/chat/3", "");
    assert "/chat/3" + "/" + "" == p;
    assert p[..6] == "/chat/" && p[6..] == "3/";
    ChatShapedNotRoute(2, p);
    ChatFallback(p, RouteTableFor(2), prev);
  }

  /** A location that matches nothing keeps the previous selection. */
  lemma UnknownPathExample(prev: seq<string>)
    ensures NextSelection("/unknown", RouteTableFor(2), prev) == prev
  {
    NotPrefixedAt("/unknown", "/chat/", 1);
    NonChatPathInRebuilt(2, "/unknown");
    StaticRoutesWellFormed();
    assert Paths(RouterMap()) == StaticPaths;
    UnmatchedKeepsSelection("/unknown", RouteTableFor(2), prev);
  }

  /**
   * `/chat/<seg>`, for a segment without '/' that is not a run of digits,
   * belongs to no route, so the last segment decides.
   */
  lemma ChatSegment(n: nat, seg: string, prev: seq<string>)
    requires '/' !in seg && !IsDecimalDigits(seg)
    ensures NextSelection("/chat/" + seg, RouteTableFor(n), prev) == [if JsNumeric(seg) then "chat" + seg else "chat"]
  {
    var p := "/chat/" + seg;
    assert p == "/chat" + "/" + seg;
    LastSegmentAfterSlash("/chat", seg);
    assert p[..6] == "/chat/" && p[6..] == seg;
    ChatShapedNotRoute(n, p);
    ChatFallback(p, RouteTableFor(n), prev);
  }

  lemma NumericChatSegment(n: nat, seg: string, prev: seq<string>)
    requires '/' !in seg && !IsDecimalDigits(seg) && JsNumeric(seg)
    ensures NextSelection("/chat/" + seg, RouteTableFor(n), prev) == ["chat" + seg]
  {
    ChatSegment(n, seg, prev);
  }

  lemma NonNumericChatSegment(n: nat, seg: string, prev: seq<string>)
    requires '/' !in seg && !IsDecimalDigits(seg) && !JsNumeric(seg)
    ensures NextSelection("/chat/" + seg, RouteTableFor(n), prev) == ["chat"]
  {
    ChatSegment(n, seg, prev);
  }
}
