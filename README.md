# SiderBar navigation state

This project models the navigation state of the side menu component
`web/src/components/SiderBar.js` of the web front end. The model covers:

- the route table that maps menu item keys to paths: the fixed `routerMap`,
  plus one `chat<i> -> /chat/<i>` route per stored chat;
- the chat-load effect, which reads the stored chat list, builds one chat
  item per element and rebuilds the route table;
- the route-selection effect, which derives the highlighted item from the
  current path;
- the click handler;
- the composition of the menu from its groups, with flag-hidden entries;
- `allItemKeys`, the list of every item key.

Modules:

- `Wrappers`: `Option`, for JavaScript `undefined`.
- `JsText`: the string operations the component uses.
  - `startsWith`.
  - `'chat' + i` for a loop counter.
  - `split('/').pop()`.
  - `isNaN` on a string. This is modelled by the StringNumericLiteral grammar
    of ECMAScript (section 7.1.4.1, StringToNumber).
- `Persisted`: the outcome of `localStorage.getItem('chats')` and
  `JSON.parse`, as an input.
  - An element of the chat list is the sequence of property names that
    `for ... in` enumerates.
- `RouteTables`: a JavaScript object from key to path, as an ordered
  sequence of routes in `Object.keys` order.
  - `Get` is the property read.
  - `Assign` is `obj[key] = path`: it overwrites an existing key in place
    and appends a new one.
  - `FindKeyByPath` is `Object.keys(t).find(...)`.
  - The static table, the rebuilt tables, and their properties.
- `Selection`: the key the selection effect derives, and the selection it
  leaves behind.
- `SideBarMenu`: chat items, menu groups, `menuItems`, what the render passes on, and `allItemKeys`.
- `SiderBarComponent`: the class `SiderBar`. It holds the component's state
  (`selectedKeys`, `chatItems`, `routerMapState`) and the current path. Its
  methods are the two effects, mounting, navigation, and a click.

Two facts about the object model make the ordered sequence exact:

- None of the keys (`home` ... `personal`, `chat<i>`) is an array index, so
  `Object.keys` returns the keys in insertion order.
- The spread copy `{ ...routerMap }` keeps that order.

Facts about the code that the model keeps:

- The reverse lookup takes the first key in `Object.keys` order
  (`SiderBar.js:258-260`). In the tables the component builds, paths are
  pairwise distinct, so no other key could have been found
  (`RouteTables.RouteTableForWellFormed`).
- Nothing checks the fixed table for duplicate keys or paths
  (`SiderBar.js:38-54`). `RouteTables.StaticRoutesWellFormed` proves it has
  none.
- A non-administrator gets none of the admin group, user management
  included (`SiderBar.js:283`).
- A path that matches nothing keeps the previous selection
  (`SiderBar.js:273-275`).
- `isNaN` returns false for `Infinity`, `+Infinity` and `-Infinity`, and for
  literals with an exponent such as `1e3` (`SiderBar.js:265`). So an alphabetic segment is
  numeric only when it is `Infinity`; `/chat/Infinity` selects
  `chatInfinity`, and `/chat/1e3` selects `chat1e3`.
- The render passes each `<Menu.Item>` its key, `as={Link}`, its target,
  its `active` flag and its click handler, and renders the entry's icon and
  label as its children (`SiderBar.js:290-298`). Of the fields of a
  `menuItems` entry, only `className` and the chat group's `items` are never
  used. So the `tableHiddle` class computed for `detail`, `midjourney` and
  `task` is not applied, and the chat links are not shown
  (`SideBarMenu.RenderIgnoresFlagsAndChats`).

## Model

| member | source | states |
|---|---|---|
| RouteTables.RouterMap | web/src/components/SiderBar.js:38-54 | the 15 fixed routes, `home -> /` to `personal -> /personal`, in declaration order |
| RouteTables.ChatKey | web/src/components/SiderBar.js:218 | `'chat' + i`: `chat` followed by the decimal text of `i` |
| RouteTables.ChatPath | web/src/components/SiderBar.js:218 | `'/chat/' + i`: `/chat/` followed by the decimal text of `i` |
| RouteTables.RouterMapWithChats | web/src/components/SiderBar.js:213-223 | the table `updateRouterMapWithChats` builds: the fixed routes, then `chat<i> -> /chat/<i>` for each element of a non-empty array; the fixed routes alone for anything else |
| RouteTables.Get | web/src/components/SiderBar.js:258-259 | reading a key gives `undefined` exactly when it is not an own property of the table, and otherwise a path the table maps that key to |
| RouteTables.Assign | web/src/components/SiderBar.js:218 | after `obj[key] = path` the key reads as `path`, every other key reads as before, and a new key is appended at the end |
| RouteTables.FindKeyByPath | web/src/components/SiderBar.js:258-260 | `find` gives `undefined` exactly when no key has the path, and otherwise a key that has it |
| RouteTables.FindKeyByPathIsFirst | web/src/components/SiderBar.js:258-260 | the key `find` returns belongs to the first route with the path, in `Object.keys` order |
| RouteTables.FindUniquePath | web/src/components/SiderBar.js:258-260 | when paths are pairwise distinct, looking up the path of route `i` gives the key of route `i` |
| RouteTables.GetAppend | web/src/components/SiderBar.js:214-219 | reading a table extended with more routes gives the old value for the old keys and the new value otherwise |
| RouteTables.FindAppend | web/src/components/SiderBar.js:214-219 | the reverse lookup in an extended table finds an old route first, and a new one only when the old table lacks the path |
| RouteTables.StaticRoutesWellFormed | web/src/components/SiderBar.js:38-54 | the 15 fixed keys are distinct and non-empty, the paths are distinct, no key starts with `chat`, and no path starts with `/chat/` |
| RouteTables.ChatKeyInjective | web/src/components/SiderBar.js:218 | distinct indices give distinct `chat<i>` keys |
| RouteTables.ChatPathInjective | web/src/components/SiderBar.js:218 | distinct indices give distinct `/chat/<i>` paths |
| RouteTables.ChatPathShape | web/src/components/SiderBar.js:218 | `/chat/<i>` starts with `/chat/`, and its last segment is the decimal text of `i` |
| RouteTables.RouteTableForWellFormed | web/src/components/SiderBar.js:213-223 | once `n` chats are loaded, keys stay distinct and non-empty and paths stay distinct, so at most one key has a given path |
| RouteTables.RebuiltKeepsStatic | web/src/components/SiderBar.js:214-220 | rebuilding never changes what a static key maps to |
| RouteTables.RebuiltChatRoute | web/src/components/SiderBar.js:216-220 | after rebuilding for `n` chats, `chat<i>` maps to `/chat/<i>` exactly when `i < n`, and is absent otherwise |
| RouteTables.RebuiltHasNothingElse | web/src/components/SiderBar.js:213-223 | a key that is neither static nor some `chat<i>` with `i < n` is absent from the rebuilt table |
| RouteTables.ChatKeyIsFresh | web/src/components/SiderBar.js:217-219 | when the loop reaches `i`, `chat<i>` is not yet a key, so the assignment appends `chat<i> -> /chat/<i>` |
| RouteTables.RebuildDependsOnlyOnLength | web/src/components/SiderBar.js:213-223 | two chat arrays of equal length rebuild the same table: the static routes, then the chat routes in index order |
| RouteTables.RebuildWithoutChats | web/src/components/SiderBar.js:214-216 | a non-array value or an empty array rebuilds exactly the static table |
| RouteTables.ChatShapedNotRoute | web/src/components/SiderBar.js:263 | a path under `/chat/` whose remainder is not a run of digits is never a route, whatever the number of chats |
| RouteTables.NonChatPathInRebuilt | web/src/components/SiderBar.js:213-223 | a path not under `/chat/` is in the rebuilt table exactly when it is a static path |
| RouteTables.RebuiltChatPath | web/src/components/SiderBar.js:216-220 | `/chat/<i>` is a path of the table for `n` chats exactly when `i < n` |
| JsText.NatToString | web/src/components/SiderBar.js:218 | the text of a loop counter is a non-empty run of decimal digits that denotes the counter, with no leading zero; it has one digit exactly below 10, and its last digit is the counter modulo 10 |
| JsText.NatToStringInjective | web/src/components/SiderBar.js:218 | distinct counters render as distinct texts |
| JsText.LastSegment | web/src/components/SiderBar.js:264 | `split('/').pop()` is a '/'-free suffix of the path, preceded by '/' whenever it is not the whole path |
| JsText.LastSegmentAfterSlash | web/src/components/SiderBar.js:264 | the text after a final '/' that contains no '/' is what `split('/').pop()` gives |
| JsText.EmptyIsNumeric | web/src/components/SiderBar.js:265 | `isNaN('')` is false |
| JsText.DigitsAreNumeric | web/src/components/SiderBar.js:265 | a run of decimal digits is numeric |
| JsText.AlphabeticIsNotNumeric | web/src/components/SiderBar.js:265 | a non-empty string of ASCII letters is numeric exactly when it is `Infinity` |
| JsText.NatToStringIsNumeric | web/src/components/SiderBar.js:265 | the text of every loop counter is numeric |
| JsText.StartsWith | web/src/components/SiderBar.js:263 | `startsWith`: the path begins with the prefix |
| JsText.JsNumeric | web/src/components/SiderBar.js:265 | `!isNaN(s)`: `s`, without surrounding white space, is empty or a StringNumericLiteral (decimal with optional sign, fraction and exponent, `Infinity`, or a `0b`/`0o`/`0x` literal) |
| JsText.ExponentIsNumeric | web/src/components/SiderBar.js:265 | digits, `e`, digits is numeric |
| Selection.MatchingKey | web/src/components/SiderBar.js:257-270 | `matchingKey`: the first key whose path is the location; failing a truthy one, for a location under `/chat/`, `chat` followed by the last segment when `isNaN` returns false for it, and `chat` otherwise |
| Selection.NextSelection | web/src/components/SiderBar.js:272-275 | the selection effect either keeps the previous selection or sets a single non-empty key |
| Selection.SelectsExactMatch | web/src/components/SiderBar.js:257-261 | with distinct paths, a location equal to the path of route `i` selects exactly that route's key |
| Selection.SelectedKeyMapsToPath | web/src/components/SiderBar.js:257-275 | when the location is a path of the table, one key is selected, and the table maps that key to the location |
| Selection.ChatFallback | web/src/components/SiderBar.js:263-270 | with no exact match, a location under `/chat/` selects `chat` followed by its last segment when that segment is numeric, and `chat` otherwise |
| Selection.UnmatchedKeepsSelection | web/src/components/SiderBar.js:273-275 | a location with no route and not under `/chat/` leaves the selection unchanged |
| Selection.NextSelectionIdempotent | web/src/components/SiderBar.js:256-276 | running the selection effect twice for the same location and table selects what one run does |
| Selection.MountSelectionSettles | web/src/components/SiderBar.js:227-276 | the selection on the static table, then the selection on the loaded table, gives what the loaded table alone gives |
| Selection.ExactMatchExamples | web/src/components/SiderBar.js:257-261 | after loading two chats, `/token` selects `token` and `/chat/1` selects `chat1` |
| Selection.ChatBeyondTable | web/src/components/SiderBar.js:263-267 | `/chat/<i>` selects `chat<i>` even when fewer than `i + 1` chats are loaded |
| Selection.ChatBeyondTableExample | web/src/components/SiderBar.js:263-267 | with two chats loaded, `/chat/3` selects `chat3` |
| Selection.NonNumericSegmentExample | web/src/components/SiderBar.js:268-269 | `/chat/abc` selects `chat` |
| Selection.InfinitySegmentExample | web/src/components/SiderBar.js:265-266 | `/chat/Infinity` selects `chatInfinity` |
| Selection.EmptySegmentExamples | web/src/components/SiderBar.js:264-266 | `/chat/` and `/chat/3/` both select `chat`, because their last segment is empty and `isNaN('')` is false |
| Selection.UnknownPathExample | web/src/components/SiderBar.js:273-275 | `/unknown` keeps whatever was selected |
| Selection.ChatSegment | web/src/components/SiderBar.js:263-270 | a '/'-free segment that is not a run of digits, placed after `/chat/`, selects `chat` followed by the segment when it is numeric, and `chat` otherwise |
| Selection.NumericChatSegment | web/src/components/SiderBar.js:265-266 | the numeric case of the fallback |
| Selection.NonNumericChatSegment | web/src/components/SiderBar.js:267-269 | the non-numeric case of the fallback |
| Selection.ExponentChatSegment | web/src/components/SiderBar.js:263-266 | `/chat/<m>e<e>` for digit runs `m` and `e` selects `chat<m>e<e>`: no route has that path, and the segment is numeric |
| SideBarMenu.ChatItemFor | web/src/components/SiderBar.js:235-241 | item `i`: `{}` for an element with no enumerable key, otherwise a link keyed `chat<i>` to `/chat/<i>` whose text is the last key enumerated |
| SideBarMenu.BuildChatItems | web/src/components/SiderBar.js:233-242 | the nested loop gives one item per element: `{}` for an element with no key, and otherwise a link keyed `chat<i>` to `/chat/<i>` labelled with the last enumerated key |
| SideBarMenu.ChatLinksAgreeWithRoutes | web/src/components/SiderBar.js:233-246 | each chat link built from a list points at the route the same list adds, and navigating to it selects that link |
| SideBarMenu.ChatLinkSelectsItself | web/src/components/SiderBar.js:257-261 | with `n` chats loaded, `/chat/<i>` for `i < n` selects `chat<i>` by exact match |
| SideBarMenu.ChatMenuItems | web/src/components/SiderBar.js:194-210 | the playground link, then the chat group with no target holding the chat items |
| SideBarMenu.WorkspaceItems | web/src/components/SiderBar.js:93-142 | detail, token, log, midjourney and task; detail, midjourney and task carry the hidden class unless their flag is exactly `'true'` |
| SideBarMenu.AdminItems | web/src/components/SiderBar.js:162-192 | channel and redemption, hidden unless the user is an administrator, then user and setting |
| SideBarMenu.FinanceItems | web/src/components/SiderBar.js:144-160 | the topup and personal links |
| SideBarMenu.MenuItems | web/src/components/SiderBar.js:280-285 | the menu has 13 entries for an administrator and 9 otherwise |
| SideBarMenu.MenuOrder | web/src/components/SiderBar.js:93-210 | the keys in order are playground, chat, detail, token, log, midjourney, task, then channel, redemption, user and setting only for an administrator, then topup and personal; the chat entry holds the chat items |
| SideBarMenu.MenuHiddenEntries | web/src/components/SiderBar.js:100-133 | an entry carries the hidden class exactly when it is detail, midjourney or task and its flag is not exactly `'true'`; token, log and the rest never do |
| SideBarMenu.Render | web/src/components/SiderBar.js:289-298 | one rendered item per entry, carrying its key, its target and whether the selection includes the key; neither the entry's `className` nor its `items` is passed |
| SideBarMenu.RenderIgnoresFlagsAndChats | web/src/components/SiderBar.js:289-298 | the rendered menu is the same whatever the feature flags and the chat items: only the role and the selection matter |
| SideBarMenu.MenuLinksSelectThemselves | web/src/components/SiderBar.js:93-192 | every menu entry with a target has that target as its route in the table, and navigating there selects the entry |
| SideBarMenu.MenuLinkIndex | web/src/components/SiderBar.js:93-192 | every menu entry with a target is a route of the fixed table |
| SideBarMenu.StaticRouteSelectsItself | web/src/components/SiderBar.js:38-54 | whatever chats are loaded, a static route keeps its path and its path selects its key |
| SideBarMenu.AllItemKeys | web/src/components/SiderBar.js:66-90 | 16 fixed keys followed by `chat0 .. chat<n-1>`, all distinct; exactly the keys of the router map for `n` chats, plus `chat` |
| SideBarMenu.StaticItemKeysWellFormed | web/src/components/SiderBar.js:67-84 | the 16 fixed keys are distinct, only `chat` among them starts with `chat`, and they are the router map keys plus `chat` |
| SiderBarComponent.SiderBar.constructor | web/src/components/SiderBar.js:60-63 | the first render selects `home`, has no chat items, and uses the static router map |
| SiderBarComponent.SiderBar.UpdateRouterMapWithChats | web/src/components/SiderBar.js:213-224 | the loop builds the table for the chat array, stores it as the router map state and returns it |
| SiderBarComponent.SiderBar.LoadChats | web/src/components/SiderBar.js:227-253 | an array sets the chat items and the rebuilt router map; missing, unparsable or non-array data changes neither; the router map always matches the chat items |
| SiderBarComponent.SiderBar.SelectRoute | web/src/components/SiderBar.js:256-276 | the effect body sets the selection the selection function gives for the current path and router map |
| SiderBarComponent.SiderBar.Mount | web/src/components/SiderBar.js:227-276 | after mounting, the chat items and the router map reflect the stored list, and the selection is one selection pass on the final router map |
| SiderBarComponent.SiderBar.Navigate | web/src/components/SiderBar.js:256-276 | a new path reruns the selection on it; the same path changes nothing |
| SiderBarComponent.SiderBar.ClickItem | web/src/components/SiderBar.js:294-295 | a click selects exactly the clicked key, and only that item is active |
| SiderBarComponent.SiderBar.IsActive | web/src/components/SiderBar.js:294 | `selectedKeys.includes(itemKey)` |
| SiderBarComponent.SiderBar.Menu | web/src/components/SiderBar.js:280-285 | the rendered menu has 13 entries for an administrator and 9 otherwise |
| SiderBarComponent.SiderBar.Rendered | web/src/components/SiderBar.js:287-300 | the component renders 13 items for an administrator and 9 otherwise, each active exactly when its key is selected |

## Left out

- React mechanics: hooks, memoisation, the render cycle, and StrictMode's
  second run of effects in development. The effects are methods of
  `SiderBar`. `Mount` fixes the order in which React runs them on mount.
- Translation `t(...)`, labels, icons, styles and JSX. The rendered
  `<Menu.Item>` is reduced to its key, target and `active` flag
  (`SideBarMenu.Render`); `as={Link}` and the icon and label children are
  not modelled, and the click handler is `SiderBar.ClickItem`.
- `localStorage.getItem` and `JSON.parse`: their results are inputs.
  - `StoredChats` is what the loader gets.
  - `Flags` holds the three feature flags.
  - `isAdmin` is a boolean. `isAdmin()` and its helpers are not part of this
    model.
- `showError` and `console.error` on a parse failure: the model keeps only
  the fact that the state does not change.
- Navigation done by `Link`, including the chat group entry, which has no
  target. A location change is the input of `SiderBar.Navigate`.
- `HeaderBar.js`, `PageLayout.js` and `index.js` are not part of this model.
  They are presentational, bootstrap I/O, and provider wiring.
- SiderBarComponent.SiderBar.Navigate: the selection effect also depends on
  `routerMapState`. After mounting, nothing changes that state, so the model
  reruns the effect only on a path change.
