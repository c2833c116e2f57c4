/**
 * What the side bar shows: the chat items built from the stored chat list,
 * the menu groups and their composition, and the precomputed list of every
 * item key.
 */
module SideBarMenu {
  import opened Wrappers
  import opened JsText
  import opened Persisted
  import opened RouteTables
  import opened Selection

  /**
   * One element of `chatItems`: the object the loader fills in, which stays
   * `{}` when the stored element has no enumerable key.
   */
  datatype ChatItem = EmptyChat | ChatLink(text: string, itemKey: string, to: string)

  /**
   * The item for element `i` of the chat list: a link to `/chat/<i>` keyed
   * `chat<i>` whose text is the element's last enumerated key.
   */
  function ChatItemFor(i: nat, rec: Record): ChatItem {
    if rec == [] then EmptyChat else ChatLink(rec[|rec| - 1], ChatKey(i), ChatPath(i))
  }

  /**
   * The loader's nested loop: one item per element of the chat list, each
   * overwritten once per enumerated key.
   */
  method BuildChatItems(chats: seq<Record>) returns (chatItems: seq<ChatItem>)
    ensures |chatItems| == |chats|
    ensures forall i | 0 <= i < |chats| :: chatItems[i] == ChatItemFor(i, chats[i])
  {
    chatItems := [];
    for i := 0 to |chats|
      invariant |chatItems| == i
      invariant forall j | 0 <= j < i :: chatItems[j] == ChatItemFor(j, chats[j])
    {
      var chat := EmptyChat;
      for k := 0 to |chats[i]|
        invariant chat == ChatItemFor(i, chats[i][..k])
      {
        chat := ChatLink(chats[i][k], ChatKey(i), ChatPath(i));
      }
      assert chats[i][..|chats[i]|] == chats[i];
      chatItems := chatItems + [chat];
    }
  }

  /**
   * Every chat link built from a list of `n` chats points at a route of the
   * table rebuilt from the same list, and navigating to it selects that link.
   */
  lemma ChatLinksAgreeWithRoutes(chats: seq<Record>, i: nat, prev: seq<string>)
    requires i < |chats| && ChatItemFor(i, chats[i]).ChatLink?
    ensures var item := ChatItemFor(i, chats[i]);
      && Get(RouteTableFor(|chats|), item.itemKey) == Some(item.to)
      && NextSelection(item.to, RouteTableFor(|chats|), prev) == [item.itemKey]
  {
    var n := |chats|;
    var item := ChatItemFor(i, chats[i]);
    assert item.itemKey == ChatKey(i) && item.to == ChatPath(i);
    RebuiltChatRoute(n, i);
    ChatLinkSelectsItself(n, i, prev);
  }

  /** Navigating to the path of a loaded chat selects that chat's key. */
  lemma ChatLinkSelectsItself(n: nat, i: nat, prev: seq<string>)
    requires i < n
    ensures NextSelection(ChatPath(i), RouteTableFor(n), prev) == [ChatKey(i)]
  {
    var t, s, routes := RouteTableFor(n), |RouterMap()|, ChatRoutes(n);
    assert routes[i] == Route(ChatKey(i), ChatPath(i));
    assert t[s + i] == routes[i];
    RouteTableForWellFormed(n);
    ChatKeyShape(i);
    SelectsExactMatch(ChatPath(i), t, prev, s + i);
  }

  /** The class name that marks a menu entry as hidden. */
  const HiddenClass: string := "tableHiddle"

  /**
   * One object of `menuItems`. Labels and icons are left out. `className`
   * is `None` when the entry sets none, and `items` is empty for every entry
   * but the chat group.
   */
  datatype MenuItem = MenuItem(itemKey: string, to: Option<string>, className: Option<string>, items: seq<ChatItem>)

  /** The feature flags as `localStorage.getItem` returns them (`None` for `null`). */
  datatype Flags = Flags(enableDataExport: Option<string>, enableDrawing: Option<string>, enableTask: Option<string>)

  predicate IsHidden(item: MenuItem) {
    item.className == Some(HiddenClass)
  }

  /** A flag-gated entry carries the hidden class unless its flag is exactly `'true'`. */
  function FeatureClass(flag: Option<string>): Option<string> {
    Some(if flag == Some("true") then "" else HiddenClass)
  }

  function Link(key: string, path: string): MenuItem {
    MenuItem(key, Some(path), None, [])
  }

  function ChatMenuItems(chatItems: seq<ChatItem>): seq<MenuItem> {
    [ Link("playground", "/playground"),
      MenuItem("chat", None, None, chatItems) ]
  }

  function WorkspaceItems(flags: Flags): seq<MenuItem> {
    [ MenuItem("detail", Some("/detail"), FeatureClass(flags.enableDataExport), []),
      Link("token", "/token"),
      Link("log", "/log"),
      MenuItem("midjourney", Some("/midjourney"), FeatureClass(flags.enableDrawing), []),
      MenuItem("task", Some("/task"), FeatureClass(flags.enableTask), []) ]
  }

  function AdminItems(isAdmin: bool): seq<MenuItem> {
    var adminClass := Some(if isAdmin then "" else HiddenClass);
    [ MenuItem("channel", Some("/channel"), adminClass, []),
      MenuItem("redemption", Some("/redemption"), adminClass, []),
      Link("user", "/user"),
      Link("setting", "/setting") ]
  }

  function FinanceItems(): seq<MenuItem> {
    [ Link("topup", "/topup"),
      Link("personal", "/personal") ]
  }

  /**
   * `menuItems`: the chat group, the workspace, the admin group only for an
   * administrator, then the finance group.
   */
  function MenuItems(chatItems: seq<ChatItem>, flags: Flags, isAdmin: bool): (menu: seq<MenuItem>)
    ensures |menu| == if isAdmin then 13 else 9
  {
    ChatMenuItems(chatItems) + WorkspaceItems(flags) + (if isAdmin then AdminItems(isAdmin) else []) + FinanceItems()
  }

  function MenuKeys(menu: seq<MenuItem>): (ks: seq<string>)
    ensures |ks| == |menu|
  {
    seq(|menu|, i requires 0 <= i < |menu| => menu[i].itemKey)
  }

  /**
   * The order of the entries; a non-administrator gets none of the admin
   * group, user management included.
   */
  lemma MenuOrder(chatItems: seq<ChatItem>, flags: Flags, isAdmin: bool)
    ensures MenuKeys(MenuItems(chatItems, flags, isAdmin))
         == ["playground", "chat", "detail", "token", "log", "midjourney", "task"]
          + (if isAdmin then ["channel", "redemption", "user", "setting"] else [])
          + ["topup", "personal"]
    ensures MenuItems(chatItems, flags, isAdmin)[1].items == chatItems
  {
  }

  /**
   * What the render hands to one `<Menu.Item>` that depends on the entry:
   * its key, its link target, and whether `selectedKeys` includes the key.
   * The `as={Link}` prop and the icon and label children are not modelled.
   */
  datatype RenderedItem = RenderedItem(key: string, to: Option<string>, active: bool)

  /** `menuItems.map(...)`: the `className` and `items` of an entry are not passed on. */
  function Render(menu: seq<MenuItem>, selectedKeys: seq<string>): (r: seq<RenderedItem>)
    ensures |r| == |menu|
  {
    seq(|menu|, i requires 0 <= i < |menu| =>
      RenderedItem(menu[i].itemKey, menu[i].to, menu[i].itemKey in selectedKeys))
  }

  /**
   * The rendered menu depends on the role and the selection only: neither
   * the feature flags, which decide the hidden class, nor the chat items,
   * which fill the chat group's `items`, reach it.
   */
  lemma RenderIgnoresFlagsAndChats(chats1: seq<ChatItem>, chats2: seq<ChatItem>, flags1: Flags, flags2: Flags,
                                   isAdmin: bool, selectedKeys: seq<string>)
    ensures Render(MenuItems(chats1, flags1, isAdmin), selectedKeys)
         == Render(MenuItems(chats2, flags2, isAdmin), selectedKeys)
  {
    var m1, m2 := MenuItems(chats1, flags1, isAdmin), MenuItems(chats2, flags2, isAdmin);
    MenuOrder(chats1, flags1, isAdmin);
    MenuOrder(chats2, flags2, isAdmin);
    forall i | 0 <= i < |m1|
      ensures m1[i].itemKey == m2[i].itemKey && m1[i].to == m2[i].to
    {
      assert MenuKeys(m1)[i] == m1[i].itemKey && MenuKeys(m2)[i] == m2[i].itemKey;
    }
  }

  /**
   * An entry carries the hidden class exactly when it is the data dashboard,
   * the drawing log or the task log and its flag is not exactly `'true'`;
   * the admin entries never do, as they appear only for an administrator.
   */
  lemma MenuHiddenEntries(chatItems: seq<ChatItem>, flags: Flags, isAdmin: bool)
    ensures forall item <- MenuItems(chatItems, flags, isAdmin) ::
      IsHidden(item) <==>
        || (item.itemKey == "detail" && flags.enableDataExport != Some("true"))
        || (item.itemKey == "midjourney" && flags.enableDrawing != Some("true"))
        || (item.itemKey == "task" && flags.enableTask != Some("true"))
  {
    forall item <- MenuItems(chatItems, flags, isAdmin)
      ensures IsHidden(item) <==>
        || (item.itemKey == "detail" && flags.enableDataExport != Some("true"))
        || (item.itemKey == "midjourney" && flags.enableDrawing != Some("true"))
        || (item.itemKey == "task" && flags.enableTask != Some("true"))
    {
      MenuGroups(item, chatItems, flags, isAdmin);
    }
  }

  /** Every entry of the menu comes from one of its groups. */
  lemma MenuGroups(item: MenuItem, chatItems: seq<ChatItem>, flags: Flags, isAdmin: bool)
    requires item in MenuItems(chatItems, flags, isAdmin)
    ensures || item in ChatMenuItems(chatItems) || item in WorkspaceItems(flags)
            || (isAdmin && item in AdminItems(isAdmin)) || item in FinanceItems()
  {
  }

  /**
   * Every menu link targets the path the router map gives its key, so
   * following it selects that very entry, whatever was selected before.
   */
  lemma MenuLinksSelectThemselves(chatItems: seq<ChatItem>, flags: Flags, isAdmin: bool, n: nat, prev: seq<string>)
    ensures forall item <- MenuItems(chatItems, flags, isAdmin) | item.to.Some? ::
      && Get(RouteTableFor(n), item.itemKey) == item.to
      && NextSelection(item.to.value, RouteTableFor(n), prev) == [item.itemKey]
  {
    var t := RouteTableFor(n);
    forall item <- MenuItems(chatItems, flags, isAdmin) | item.to.Some?
      ensures Get(t, item.itemKey) == item.to
      ensures NextSelection(item.to.value, t, prev) == [item.itemKey]
    {
      var i := MenuLinkIndex(item, chatItems, flags, isAdmin);
      StaticRouteSelectsItself(n, i, prev);
    }
  }

  /** A menu link is a static route of the router map. */
  lemma MenuLinkIndex(item: MenuItem, chatItems: seq<ChatItem>, flags: Flags, isAdmin: bool) returns (i: nat)
    requires item in MenuItems(chatItems, flags, isAdmin) && item.to.Some?
    ensures i < |RouterMap()| && RouterMap()[i] == Route(item.itemKey, item.to.value)
  {
    MenuGroups(item, chatItems, flags, isAdmin);
    if item in ChatMenuItems(chatItems) {
      i := 13;
    } else if item in WorkspaceItems(flags) {
      i := WorkspaceLinkIndex(item, flags);
    } else if isAdmin && item in AdminItems(isAdmin) {
      i := AdminLinkIndex(item);
    } else {
      i := if item.itemKey == "topup" then 4 else 14;
    }
  }

  lemma WorkspaceLinkIndex(item: MenuItem, flags: Flags) returns (i: nat)
    requires item in WorkspaceItems(flags) && item.to.Some?
    ensures i < |RouterMap()| && RouterMap()[i] == Route(item.itemKey, item.to.value)
  {
    i := if item.itemKey == "detail" then 10 else if item.itemKey == "token" then 2
      else if item.itemKey == "log" then 6 else if item.itemKey == "midjourney" then 7 else 12;
  }

  lemma AdminLinkIndex(item: MenuItem) returns (i: nat)
    requires item in AdminItems(true) && item.to.Some?
    ensures i < |RouterMap()| && RouterMap()[i] == Route(item.itemKey, item.to.value)
  {
    i := if item.itemKey == "channel" then 1 else if item.itemKey == "redemption" then 3
      else if item.itemKey == "user" then 5 else 8;
  }

  /** A static route keeps its key and path once chats are loaded, and selects itself. */
  lemma StaticRouteSelectsItself(n: nat, i: nat, prev: seq<string>)
    requires i < |RouterMap()|
    ensures Get(RouteTableFor(n), RouterMap()[i].key) == Some(RouterMap()[i].path)
    ensures NextSelection(RouterMap()[i].path, RouteTableFor(n), prev) == [RouterMap()[i].key]
  {
    var t := RouteTableFor(n);
    RouteTableForWellFormed(n);
    assert t[i] == RouterMap()[i];
    assert Keys(t)[i] in Keys(t);
    GetUnique(t, i);
    SelectsExactMatch(t[i].path, t, prev, i);
  }

  /**
   * Where a static key sits in the router map. A proof aid that restates
   * the positions of `RouterMap()`; its ensures checks them against it.
   */
  function StaticIndex(key: string): (i: nat)
    requires key in StaticKeys
    ensures i < |RouterMap()| && RouterMap()[i].key == key
  {
    if key == "home" then 0 else if key == "channel" then 1 else if key == "token" then 2
    else if key == "redemption" then 3 else if key == "topup" then 4 else if key == "user" then 5
    else if key == "log" then 6 else if key == "midjourney" then 7 else if key == "setting" then 8
    else if key == "about" then 9 else if key == "detail" then 10 else if key == "pricing" then 11
    else if key == "task" then 12 else if key == "playground" then 13 else 14
  }

  /** The sixteen fixed keys of `allItemKeys`, in declaration order. */
  const StaticItemKeys: seq<string> :=
    [ "home", "channel", "token", "redemption", "topup", "user", "log", "midjourney",
      "setting", "about", "chat", "detail", "pricing", "task", "playground", "personal" ]

  /**
   * `allItemKeys`: the fixed keys followed by `chat0 .. chat<n-1>`, one per
   * chat item. They are all distinct, and they are exactly the keys of the
   * router map for the same chats plus the chat group.
   */
  method AllItemKeys(chatCount: nat) returns (keys: seq<string>)
    ensures |keys| == 16 + chatCount
    ensures keys[..16] == StaticItemKeys
    ensures forall i | 0 <= i < chatCount :: keys[16 + i] == ChatKey(i)
    ensures Distinct(keys)
    ensures forall k :: k in keys <==> k == "chat" || k in Keys(RouteTableFor(chatCount))
  {
    keys := StaticItemKeys;
    for i := 0 to chatCount
      invariant |keys| == 16 + i
      invariant keys[..16] == StaticItemKeys
      invariant forall j | 0 <= j < i :: keys[16 + j] == ChatKey(j)
    {
      keys := keys + [ChatKey(i)];
    }
    ItemKeysWellFormed(keys, chatCount);
  }

  lemma StaticItemKeysWellFormed()
    ensures Distinct(StaticItemKeys)
    ensures forall k <- StaticItemKeys :: !StartsWith(k, "chat") || k == "chat"
    ensures forall k :: k in StaticItemKeys <==> k == "chat" || k in StaticKeys
  {
    forall k <- StaticItemKeys
      ensures !StartsWith(k, "chat") || k == "chat"
    {
      if k != "chat" {
        NotPrefixedAt(k, "chat", if k == "channel" then 3 else 0);
      }
    }
  }

  lemma ItemKeysWellFormed(keys: seq<string>, n: nat)
    requires |keys| == 16 + n && keys[..16] == StaticItemKeys
    requires forall i | 0 <= i < n :: keys[16 + i] == ChatKey(i)
    ensures Distinct(keys)
    ensures forall k :: k in keys <==> k == "chat" || k in Keys(RouteTableFor(n))
  {
    ItemKeysDistinct(keys, n);
    ItemKeysCoverRoutes(keys, n);
  }

  lemma ItemKeysDistinct(keys: seq<string>, n: nat)
    requires |keys| == 16 + n && keys[..16] == StaticItemKeys
    requires forall i | 0 <= i < n :: keys[16 + i] == ChatKey(i)
    ensures Distinct(keys)
  {
    StaticItemKeysWellFormed();
    forall i, j | 0 <= i < j < |keys|
      ensures keys[i] != keys[j]
    {
      if j < 16 {
        assert keys[i] == StaticItemKeys[i] && keys[j] == StaticItemKeys[j];
      } else if i < 16 {
        ChatKeyShape(j - 16);
        assert keys[i] == StaticItemKeys[i];
      } else if keys[i] == keys[j] {
        ChatKeyInjective(i - 16, j - 16);
      }
    }
  }

  lemma ItemKeysCoverRoutes(keys: seq<string>, n: nat)
    requires |keys| == 16 + n && keys[..16] == StaticItemKeys
    requires forall i | 0 <= i < n :: keys[16 + i] == ChatKey(i)
    ensures forall k :: k in keys <==> k == "chat" || k in Keys(RouteTableFor(n))
  {
    StaticItemKeysWellFormed();
    var t := RouteTableFor(n);
    assert Keys(RouterMap()) == StaticKeys;
    forall k
      ensures k in keys <==> k == "chat" || k in Keys(t)
    {
      if k in keys {
        var i :| 0 <= i < |keys| && keys[i] == k;
        if i < 16 {
          assert k in StaticItemKeys;
          if k != "chat" {
            var j := StaticIndex(k);
            assert Keys(t)[j] == k;
          }
        } else {
          assert Keys(t)[|RouterMap()| + i - 16] == k;
        }
      }
      if k == "chat" || k in Keys(t) {
        if k == "chat" {
          assert keys[10] == k;
        } else {
          var i :| 0 <= i < |t| && Keys(t)[i] == k;
          if i < |RouterMap()| {
            assert Keys(RouterMap())[i] == k;
            assert k in StaticItemKeys;
            var j :| 0 <= j < 16 && StaticItemKeys[j] == k;
            assert keys[j] == k;
          } else {
            assert keys[16 + i - |RouterMap()|] == k;
          }
        }
      }
    }
  }
}
