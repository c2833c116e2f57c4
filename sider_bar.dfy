/**
 * The `SiderBar` component as a state machine: its three state hooks and
 * the location, changed by its effects and its click handler.
 */
module SiderBarComponent {
  import opened Wrappers
  import opened JsText
  import opened Persisted
  import opened RouteTables
  import opened Selection
  import opened SideBarMenu

  class SiderBar {
    /** `selectedKeys` */
    var selectedKeys: seq<string>
    /** `chatItems` */
    var chatItems: seq<ChatItem>
    /** `routerMapState` */
    var routerMapState: RouteTable
    /** `location.pathname` as of the last render */
    var pathname: string

    /** The router map holds one chat route per chat item, after the static ones. */
    ghost predicate Valid()
      reads this
    {
      routerMapState == RouteTableFor(|chatItems|)
    }

    /** The first render: `home` selected, no chat items, the static router map. */
    constructor (pathname: string)
      ensures Valid()
      ensures selectedKeys == ["home"] && chatItems == [] && routerMapState == RouterMap()
      ensures this.pathname == pathname
    {
      selectedKeys := ["home"];
      chatItems := [];
      routerMapState := RouterMap();
      this.pathname := pathname;
      assert RouteTableFor(0) == RouterMap();
    }

    /**
     * `updateRouterMapWithChats`: a copy of the static map that gains
     * `chat<i> -> /chat/<i>` for each element of a non-empty array, stored as
     * the new router map state.
     */
    method UpdateRouterMapWithChats(chats: JsonValue) returns (newRouterMap: RouteTable)
      modifies this`routerMapState
      ensures newRouterMap == RouterMapWithChats(chats)
      ensures routerMapState == newRouterMap
    {
      newRouterMap := RouterMap();
      if chats.ArrayValue? && |chats.elements| > 0 {
        assert RouteTableFor(0) == RouterMap();
        for i := 0 to |chats.elements|
          invariant newRouterMap == RouteTableFor(i)
        {
          ChatKeyIsFresh(i);
          newRouterMap := Assign(newRouterMap, ChatKey(i), ChatPath(i));
        }
      }
      routerMapState := newRouterMap;
    }

    /**
     * The chat-load effect. A stored array gives one chat item per element
     * and the router map rebuilt from it; missing, unparsable or non-array
     * data changes nothing. `replaced` tells whether the router map state
     * was set.
     */
    method LoadChats(stored: StoredChats) returns (replaced: bool)
      requires Valid()
      modifies this`chatItems, this`routerMapState
      ensures Valid()
      ensures replaced <==> stored.Parsed? && stored.value.ArrayValue?
      ensures replaced ==>
        && |chatItems| == |stored.value.elements|
        && (forall i | 0 <= i < |chatItems| :: chatItems[i] == ChatItemFor(i, stored.value.elements[i]))
        && routerMapState == RouterMapWithChats(stored.value)
      ensures !replaced ==> chatItems == old(chatItems) && routerMapState == old(routerMapState)
    {
      replaced := false;
      match stored
      case Missing =>
      case Unparsable =>
      case Parsed(chats) =>
        if chats.ArrayValue? {
          var items := BuildChatItems(chats.elements);
          chatItems := items;
          var newRouterMap := UpdateRouterMapWithChats(chats);
          assert RouteTableFor(0) == RouterMap();
          replaced := true;
        }
    }

    /** The route-selection effect for the current location and router map. */
    method SelectRoute()
      modifies this`selectedKeys
      ensures selectedKeys == NextSelection(pathname, routerMapState, old(selectedKeys))
    {
      var matchingKey := FindKeyByPath(routerMapState, pathname);
      if !Truthy(matchingKey) && StartsWith(pathname, "/chat/") {
        var chatIndex := LastSegment(pathname);
        if JsNumeric(chatIndex) {
          matchingKey := Some("chat" + chatIndex);
        } else {
          matchingKey := Some("chat");
        }
      }
      if Truthy(matchingKey) {
        selectedKeys := [matchingKey.value];
      }
    }

    /**
     * Mounting. Both effects run after the first render; the loader's state
     * updates take effect only after that, so the selection effect first
     * sees the static router map, and runs again once the loader has set a
     * new one. The outcome is that of one selection with the final map.
     */
    method Mount(stored: StoredChats)
      requires Valid() && chatItems == []
      modifies this`chatItems, this`routerMapState, this`selectedKeys
      ensures Valid()
      ensures stored.Parsed? && stored.value.ArrayValue? ==>
        && |chatItems| == |stored.value.elements|
        && (forall i | 0 <= i < |chatItems| :: chatItems[i] == ChatItemFor(i, stored.value.elements[i]))
      ensures !(stored.Parsed? && stored.value.ArrayValue?) ==> chatItems == []
      ensures routerMapState == RouteTableFor(|chatItems|)
      ensures selectedKeys == NextSelection(pathname, routerMapState, old(selectedKeys))
    {
      ghost var prev := selectedKeys;
      SelectRoute();
      ghost var first := selectedKeys;
      assert first == NextSelection(pathname, RouteTableFor(0), prev);
      var replaced := LoadChats(stored);
      if replaced {
        SelectRoute();
        assert RouteTableFor(0) == RouterMap();
        MountSelectionSettles(pathname, |chatItems|, prev);
      }
    }

    /**
     * A change of location. The selection effect depends on the path, so it
     * runs only when the path differs from the last one.
     */
    method Navigate(path: string)
      modifies this`pathname, this`selectedKeys
      ensures pathname == path
      ensures selectedKeys == if path == old(pathname) then old(selectedKeys)
                              else NextSelection(path, routerMapState, old(selectedKeys))
    {
      if path != pathname {
        pathname := path;
        SelectRoute();
      }
    }

    /** `selectedKeys.includes(itemKey)`: whether the menu shows the item as active. */
    predicate IsActive(itemKey: string)
      reads this
    {
      itemKey in selectedKeys
    }

    /** The click handler of a menu item: that item alone becomes selected. */
    method ClickItem(itemKey: string)
      modifies this`selectedKeys
      ensures selectedKeys == [itemKey]
      ensures forall k :: IsActive(k) <==> k == itemKey
    {
      selectedKeys := [itemKey];
    }

    /** `menuItems` for the given flags and role. */
    function Menu(flags: Flags, isAdmin: bool): (menu: seq<MenuItem>)
      reads this
      ensures |menu| == if isAdmin then 13 else 9
    {
      MenuItems(chatItems, flags, isAdmin)
    }

    /** The `<Menu.Item>`s the component renders: one per entry, active when selected. */
    function Rendered(flags: Flags, isAdmin: bool): (r: seq<RenderedItem>)
      reads this
      ensures |r| == if isAdmin then 13 else 9
      ensures forall i | 0 <= i < |r| :: r[i].active <==> IsActive(r[i].key)
    {
      Render(Menu(flags, isAdmin), selectedKeys)
    }
  }

  /**
   * A side bar mounted on `/chat/1` with two stored chats, then moved around
   * and clicked.
   */
  method EndToEnd()
  {
    var bar := new SiderBar("/chat/1");
    bar.Mount(Parsed(ArrayValue([["first"], ["second"]])));
    ExactMatchExamples(["home"]);
    assert bar.selectedKeys == ["chat1"];

    bar.Navigate("/token");
    ExactMatchExamples(["chat1"]);
    assert bar.selectedKeys == ["token"];

    bar.Navigate("/unknown");
    UnknownPathExample(["token"]);
    assert bar.selectedKeys == ["token"];

    bar.Navigate("/chat/3");
    ChatBeyondTableExample(["token"]);
    assert bar.selectedKeys == ["chat3"];

    bar.ClickItem("log");
    assert bar.IsActive("log") && !bar.IsActive("chat3");
  }
}
