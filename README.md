# videojs-hls-levels: a verified model of the quality-level menu

The plugin adds a "Quality" menu button to a video.js player's control bar.
The button lists the quality levels that the active playback tech reports.
That tech is either Flash or Html5 with an adaptive streaming engine. A
synthetic "Auto" entry comes first. Clicking an entry marks it as the only
selected one and hands a level to the tech.

This project models the parts of `lib/videojs-hls-levels.js` that can be
stated and proved:

- `Labels` (labels.dfy). How one level record `{name?, height?, bitrate?}`
  gets its label. The first truthy field wins: a non-empty name, then a
  non-zero height rendered as `<height>p`, then a non-zero bitrate rendered
  as `<Math.round(bitrate / 1024)>kb`. A level with none of these gets no
  label. Numbers are rendered in decimal, and a lemma shows the rendering
  reads back to the same integer. `Math.round(b / 1024)` on an integer `b`
  is `(b + 512) / 1024` with floor division. Its contract states the
  rounding bounds, and those bounds fix the result uniquely.
- `Menu` (menu.dfy). `createItems` is a loop method that pushes every
  created item onto the menu item list. It is proved against specification
  functions: `Slots` gives the mapped list, null slots included; `Present`
  drops the nulls; `InitialSelection` gives the starting selected flags.
  Lemmas state the list's shape, the item values and the item count. They
  also state that the menu item list keeps the mapped list's order, and
  which items start selected.
- `Tech` (tech.dfy). The two backends' `getLevels` and `setLevel`. The
  Html5 tech maps a falsy level to -1 and stores anything else unchanged.
  The Flash tech passes the level through. Its level list falls back to
  `[]` when the property is absent.
- `Plugin` (plugin.dfy). `LevelsMenuButton` is a class that holds the menu
  items and one `bool` per item in an array; the array stands for the
  `vjs-selected` class. `Click` is `onClickUnselectOthers`, and `OnClick`
  is the menu item's click handler. `LevelsPlugin` is the plugin closure.
  Its `button` variable is reassigned on each `loadedmetadata` event. The
  control bar is a sequence of attached buttons. A lemma shows that at
  most one of them is live.

Events are method calls. The backend kind is the tech's `kind` field, given
when the tech is built. The level list is an input, read from the tech's
state.

Two behaviours of the code that the model keeps:
- An empty level list still gives a button, with no items, and the button
  is attached to the control bar.
- A level without a label is kept in the returned list as a null slot. It
  is not removed.

## Model

| member | source | states |
|---|---|---|
| `Labels.LabelOf` | lib/videojs-hls-levels.js:183-196 | a level gets no label exactly when its name is absent or empty, its height is absent or 0 and its bitrate is absent or 0; a label is never empty |
| `Labels.NameLabel` | lib/videojs-hls-levels.js:185-186 | a non-empty name is the label, whatever the height and bitrate are |
| `Labels.HeightLabel` | lib/videojs-hls-levels.js:187-188 | with no name, a non-zero height gives a label ending in "p" whose prefix is the height's decimal rendering and reads back as the height, whatever the bitrate is |
| `Labels.BitrateLabel` | lib/videojs-hls-levels.js:189-195 | with no name and no height, a non-zero bitrate gives a label ending in "kb" whose prefix is the decimal rendering of an integer within half a kilobit (halves up) of bitrate / 1024, and reads back as that integer |
| `Labels.RoundKb` | lib/videojs-hls-levels.js:192 | the kilobit count k satisfies 1024k - 512 <= bitrate < 1024k + 512, the bounds of `Math.round(bitrate / 1024)` |
| `Labels.RoundKbUnique` | lib/videojs-hls-levels.js:192 | only one integer meets those rounding bounds, so they fix `Math.round`'s result |
| `Labels.IntToDecimalRoundTrip` | lib/videojs-hls-levels.js:188 | the decimal rendering of an integer reads back as that integer |
| `Labels.LabelExamples` | lib/videojs-hls-levels.js:183-196 | height 720 gives "720p"; bitrate 512000 gives "500kb"; name "Low" beats height and bitrate; an empty name with height 0 gives no label |
| `Menu.Entries` | lib/videojs-hls-levels.js:165-168 | the mapped list is "Auto" followed by the levels in their order |
| `Menu.CreateItems` | lib/videojs-hls-levels.js:152-219 | the returned list is the mapped list with null slots; the menu item list is exactly its non-null items, in order; the flags are the initial selection |
| `Menu.SlotsShape` | lib/videojs-hls-levels.js:160-179 | no levels give an empty list; otherwise the list has one slot per level plus one, slot 0 is "Auto" with value 0, the item at position k has value k and shows the label of entry k, and a level's slot is null exactly when it has no label |
| `Menu.NullSlotsAreUnlabelled` | lib/videojs-hls-levels.js:191-195 | the null slots are as many as the unlabelled levels ("Auto" always has a label) |
| `Menu.MenuItemCount` | lib/videojs-hls-levels.js:211 | the menu item list has one item per level plus one, less one per unlabelled level |
| `Menu.MenuItemsInOrder` | lib/videojs-hls-levels.js:211-218 | menu item values strictly increase; each menu item is the item in the slot its value names; every non-null slot's item is a menu item; the first menu item is "Auto" with value 0 |
| `Menu.InitialSelectionIsAuto` | lib/videojs-hls-levels.js:213-215 | there is one flag per menu item, and an item starts selected exactly when the entry at its value is named "Auto"; the "Auto" item always starts selected |
| `Menu.OnlyAutoStartsSelected` | lib/videojs-hls-levels.js:213-215 | when no backend level is named "Auto", exactly the first menu item starts selected |
| `Tech.Html5Level` | lib/videojs-hls-levels.js:110-112 | the stored level is never 0; it is -1 exactly when the request is falsy or is -1; a truthy request is stored unchanged |
| `Tech.Html5LevelIdempotent` | lib/videojs-hls-levels.js:111 | normalising a stored level again leaves it unchanged |
| `Tech.Html5LevelOfPosition` | lib/videojs-hls-levels.js:111 | menu position 0 ("Auto") is stored as -1; every other position is stored as itself |
| `Tech.FlashLevels` | lib/videojs-hls-levels.js:94-96 | an absent `levels` property gives an empty list; a present one is returned as it is |
| `Tech.Tech.GetLevels` | lib/videojs-hls-levels.js:94-108 | Html5 returns the engine's level list; Flash returns the property's list, or an empty one |
| `Tech.Tech.SetLevel` | lib/videojs-hls-levels.js:98-112 | Flash stores the requested level unchanged; Html5 stores the normalised level, which is never 0 |
| `Plugin.ExactlyOneSelected` | lib/videojs-hls-levels.js:170-177 | after a click exactly one flag is set, and it is the clicked item's |
| `Plugin.LevelsMenuButton.constructor` | lib/videojs-hls-levels.js:136-219 | a new button holds the result of `createItems` on the levels, and its flags are the initial selection |
| `Plugin.LevelsMenuButton.Click` | lib/videojs-hls-levels.js:170-177 | afterwards the clicked item is selected and every other menu item is not; clicking the only selected item again changes nothing |
| `Plugin.LevelsMenuButton.OnClick` | lib/videojs-hls-levels.js:126-130 | the click updates the selection as `Click` does; the Html5 tech then stores the normalised item value, so a click on "Auto" (value 0) stores -1; the Flash tech stores an absent level |
| `Plugin.Html5ClickStoresIndexPlusOne` | lib/videojs-hls-levels.js:126-130 | on a new button, a click on menu item 0 makes the Html5 tech store -1; a click on any other menu item shows the label of backend level i and makes the tech store i + 1 |
| `Plugin.Html5ClickOnLastLevel` | lib/videojs-hls-levels.js:110-112 | when the last backend level has a label, a click on the last menu item makes the Html5 tech store the length of the level list, one past its last index |
| `Plugin.LevelsMenuButton.Dispose` | lib/videojs-hls-levels.js:233 | the button is disposed |
| `Plugin.LevelsPlugin.constructor` | lib/videojs-hls-levels.js:229 | a new plugin has no button and has attached nothing |
| `Plugin.LevelsPlugin.OnLoadedMetadata` | lib/videojs-hls-levels.js:231-239 | the previous button, if any, is disposed and otherwise unchanged (same items, menu items and flags); a fresh button built from the tech's levels is attached last and becomes the current button; its menu items are its non-null items and its flags are the initial selection |
| `Plugin.AtMostOneLive` | lib/videojs-hls-levels.js:229-239 | among the attached buttons, none is live before the first event and exactly one is live afterwards |

## Left out

- `getTech` and `getEl` (lines 31-57) find the tech and its element by reflecting over object keys. The model passes the tech in directly.
- `Player.getLevels` and `Player.setLevel` (lines 74-88) only delegate to the tech, so the model calls the tech's members directly.
- `isSoftHLS` (lines 40-42) is a DOM query. The backend kind is the tech's `kind` field instead.
- The DOM and jQuery work is not modelled: element creation, `controlText`, the static label span, `.html(levelName)`, and adding or removing CSS classes. The `vjs-selected` class is one `bool` per menu item.
- Event wiring (click, touchstart, loadedmetadata), plugin registration and `mergeOptions` over the empty defaults are not modelled. Events are method calls.
- The opaque backend state is not modelled: the engine's `levels`, and what `vjs_getProperty` and `vjs_setProperty` do inside the Flash plugin. The level list is an input, and the stored level is a field.
- If the Html5 engine has no level list, `levels.length` throws. This is not modelled; the engine's list is always a sequence.
- Heights and bitrates are integers; floating-point values are not modelled. Level fields of other JavaScript types are not modelled either: names are strings or absent, numbers are integers or absent.
- Number-to-string conversion is plain decimal. The exponent form that JavaScript uses from 10^21 on is not modelled.
- The commented-out "Kbps" label (line 190) is not modelled.
- The click payload comes from the menu item's options. With Html5 it is `options_.el.value`, which the model takes to be the `value` attribute that `createItems` gives the element: the item's position. That position is one more than the level's own index in the engine's list, so the last level's item stores the list's length. With Flash it is `options_.value`, which the options never set, so the model passes an absent level.
- Plugin.LevelsMenuButton.OnClick: the handler (lines 128-129) calls `isSoftHLS` and `setLevel` on a `player` that no enclosing scope declares, so it names a page-global `player`. The model assumes that global is the player the plugin was installed on and passes its tech directly. If there is no such global, the handler throws a ReferenceError after the selection update and before `setLevel`; the model does not capture that.
- `Dispose` only marks the button disposed. The control bar keeps its reference, and tearing down the button's elements and listeners is not modelled.
- Each clicked item is named by its index in the menu item list. The item objects and their identity are not modelled.
