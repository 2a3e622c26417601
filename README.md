# Drill-down navigation menu: the `Menu` state machine

This project models the navigation core of the `Menu` React component in
`components/menu.tsx`. The component shows a tree of menu items one level at a
time inside a bottom sheet. Its state has two parts:

- `menuHistory`: a stack of item-list snapshots. The root list sits at the bottom and the visible level is on top.
- `direction`: `1` after a forward move, `-1` after a move back.

Its handlers change this state:

- the reset effect that runs when the menu opens;
- `navigateToSubmenu`, which pushes a level;
- `navigateBack`, which pops a level, but only below the root;
- `handleMenuItemClick`, where a container item opens its submenu, a leaf with `onClick` fires it and then `onClose`, and any other item does nothing;
- `handleClose`, which goes back one level below the root and calls `onClose` at the root; the dialog's Escape key is routed to it;
- the item key handler, which moves focus with clamped index arithmetic and treats Enter and Space as a click.

The slide animation takes its offsets from the direction.

Three modules:

- `MenuModel` (`menu_model.dfy`) holds the values: `MenuItem`, `Direction`, the state `Nav`, and the callbacks a handler fires (`Effect`). Every handler is a function from the old `Nav` to an `Outcome`, which is the new `Nav` plus the effects fired, in order. The module also has the focus arithmetic, the `aria-label` choice and the slide poses. `Step` and `Run` deliver input events to the rendered component.
- `MenuLaws` (`menu_laws.dfy`) proves what the component promises. The history is never empty. For events addressed to the visible level, each upper level is the submenu of an item on the level below. Back undoes forward. Escape unwinds one level per press before it closes. `onClick` is always followed at once by `onClose`. Focus stays on the visible level. The slide offsets mirror.
- `MenuComponent` (`menu_component.dfy`) is the component as a class. Its fields are `menuHistory` and `direction`, plus a ghost log `effects` of fired callbacks. Each handler is a method that updates the fields in place. Each method is proved equal to its `MenuModel` function: the new state is that function of the old state, and the log is extended by that function's effects.

Notes on how the code behaves, which the model follows:

- Where-am-I is a stack of snapshots, not a path of ids. Nothing re-resolves the stack against new data, so there is no stale-path fallback.
- Direction is the integer `1`/`-1` (`Direction`, a subset type of `int`), not an enumeration.
- After a transition, the code does not move focus to the first item of the new level. Focus moves only on arrow, Home and End keys.
- The reset effect depends on `[isOpen, menuData]`. A new `menuData` while the menu is open therefore also resets to the root (`OpenEffect`).
- The entering and the exiting level both attach the one object ref `menuRef` (components/menu.tsx:50, 169-179). Under React's ref semantics, unmounting the exiting level after its slide sets `menuRef.current` to null. The item key handler then returns at once (components/menu.tsx:112-113). So an item key event carries whether `menuRef` is attached, and `Step` passes no item count when it is not.

Also in the model, with no row of their own: `MenuModel.Nav.IsRootLevel` is `isRootLevel` and `MenuModel.Nav.CurrentMenu` is `currentMenu` (components/menu.tsx:52-53): whether the history holds exactly one level, and the level on top of it. The contracts above state their results through them. `MenuModel.ActivePose` is `slideVariants.active` (components/menu.tsx:33-36), a level at rest at offset 0 and opacity 1. `MenuComponent.DrillDownScenario` drives the class through the open, click, Escape, Escape walk and checks each state using only the method contracts.

The React `label` field is named `caption`, because `label` is a Dafny keyword.

## Model

| member | source | states |
|---|---|---|
| `MenuModel.InitialNav` | components/menu.tsx:47-48 | The first state has a non-empty history of one level: the root level is `menuData`, and the direction is forward. |
| `MenuModel.OpenEffect` | components/menu.tsx:55-61 | When open, the result is at the root, shows `menuData` and moves forward, whatever the earlier state. When closed, nothing changes. |
| `MenuModel.Nav.NavigateToSubmenu` | components/menu.tsx:64-67 | The result is never empty and shows the submenu. It moves forward. It is one level deeper, with every earlier level unchanged. From a valid state it is not the root. |
| `MenuModel.Nav.NavigateBack` | components/menu.tsx:69-74 | Below the root it drops exactly the top level and moves back. At the root, or on an empty history, it is a no-op. It keeps the history non-empty. |
| `MenuModel.Nav.HandleMenuItemClick` | components/menu.tsx:76-89 | A non-empty submenu is pushed and fires nothing, even if the item has `onClick`: the container wins. Otherwise the state is unchanged. An item with `onClick` fires exactly `[onClick, onClose]`, in that order. An item with neither fires nothing. |
| `MenuModel.Nav.HandleClose` | components/menu.tsx:91-97 | `onClose` fires (exactly once) if and only if the state is at the root, and then the state is unchanged. Otherwise it goes back and fires nothing. |
| `MenuModel.Nav.HandleDialogKeyDown` | components/menu.tsx:100-108 | Escape acts exactly like `handleClose`. Every other key changes nothing and fires nothing. |
| `MenuModel.FocusTarget` | components/menu.tsx:119-135 | A target exists exactly for ArrowDown, ArrowUp, Home and End. For a valid index in a level of n items, it lies in [0, n-1]. |
| `MenuModel.FocusItem` | components/menu.tsx:115-117 | Focus moves, once, exactly when a rendered item exists at the target index. Otherwise nothing happens. |
| `MenuModel.Nav.HandleItemKeyDown` | components/menu.tsx:110-144 | Without a mounted list it does nothing. Enter and Space act exactly as a click. No other key changes the state. An arrow, Home or End focuses exactly `FocusTarget`'s index, if an item exists there; from a valid index that is one focus move, in range. Any other key fires nothing. |
| `MenuModel.Nav.AriaLabel` | components/menu.tsx:181 | The label is never empty. At the root it is "Menu". Below the root it is the first item's label when that label is non-empty, and "Submenu" when the level is empty or its first label is empty. |
| `MenuModel.InitialPose` | components/menu.tsx:29-32 | An incoming level starts transparent, 110% to the side. It comes from the right exactly when moving forward. |
| `MenuModel.ExitPose` | components/menu.tsx:37-40 | An outgoing level ends transparent, 110% to the side. It leaves to the left exactly when moving forward. |
| `MenuModel.Step` | components/menu.tsx:185-213 | For any item click, Back click, dialog key, item key (bubbling to the dialog, with `menuRef` attached or not) or open change, a non-empty history stays non-empty. |
| `MenuModel.Run` | components/menu.tsx:47-74 | After any sequence of events from a valid state, the history is still non-empty, so `currentMenu` is always defined. |
| `MenuLaws.OpenDiscardsState` | components/menu.tsx:56-61 | Opening from any two states gives the same result: exactly `[menuData]` with direction 1. |
| `MenuLaws.PushBackRoundTrip` | components/menu.tsx:64-74 | Pushing a submenu and then going back restores the previous history exactly, with direction -1. |
| `MenuLaws.ClickThenCloseRoundTrip` | components/menu.tsx:76-97 | Activating a container item and then dismissing returns to the same history. Neither step fires a callback. |
| `MenuLaws.BackNHistory` | components/menu.tsx:69-74 | k back steps from depth d leave exactly the bottom max(d-k, 1) levels. The direction is -1 once a level was popped, and unchanged otherwise. |
| `MenuLaws.BackToRoot` | components/menu.tsx:69-74 | From depth d, d-1 back steps reach the root level, leaving exactly the original root level. Any further back steps change nothing. |
| `MenuLaws.EscapesUnwind` | components/menu.tsx:91-105 | Below the root, k Escape presses (k < depth) do exactly k back steps and fire nothing. |
| `MenuLaws.EscapesAtRoot` | components/menu.tsx:91-105 | At the root, k Escape presses leave the state unchanged and fire `onClose` exactly k times. |
| `MenuLaws.EscapesReachRoot` | components/menu.tsx:91-105 | From depth d, d-1 Escape presses reach the original root level without calling `onClose`. |
| `MenuLaws.EscapesThenClose` | components/menu.tsx:91-105 | From depth d, after d-1 presses, each further press calls `onClose` exactly once, and the state stays where those d-1 presses left it. |
| `MenuLaws.ItemEscapeIsDialogEscape` | components/menu.tsx:100-144 | Escape on a focused item of the visible level, with `menuRef` attached or not, has exactly the effect of Escape on the dialog: the item handler ignores it and it bubbles. The Escape laws therefore hold for both routes. |
| `MenuLaws.StepCloses` | components/menu.tsx:83-97 | An event calls `onClose` only in two cases, and the state is then unchanged. Either it is a dismiss at the root that fires nothing else, or it comes right after a leaf item's `onClick`. A move that changes depth never calls it. |
| `MenuLaws.StepActionsThenClose` | components/menu.tsx:83-86 | Within one event, every `onClick` fired is immediately followed by `onClose`. |
| `MenuLaws.RunActionsThenClose` | components/menu.tsx:83-86 | Over any sequence of events, every `onClick` in the log is immediately followed by `onClose`. |
| `MenuLaws.StepLinked` | components/menu.tsx:76-89 | An event keeps every upper level equal to the non-empty submenu of some item on the level below. Only an open change replaces the root level. |
| `MenuLaws.RunLinked` | components/menu.tsx:201-212 | Every state reachable from a linked state is linked. Without an open change, the root level stays the same. |
| `MenuLaws.FocusKeys` | components/menu.tsx:119-135 | From a valid index i among n items: ArrowDown gives min(i+1, n-1), ArrowUp gives max(i-1, 0), Home gives 0 and End gives n-1. |
| `MenuLaws.ActivationKeysAreClicks` | components/menu.tsx:112-140 | With `menuRef` attached, Enter and Space on an item give exactly the same state and callbacks as a click on it. With it detached the handler changes nothing and fires nothing. It returns before `preventDefault()`, so the browser's own activation of the focused button still follows, and the model sees that as a separate `ItemClick`. |
| `MenuLaws.ItemKeyFocus` | components/menu.tsx:112-135 | On item i of a level of n items, with `menuRef` attached: ArrowDown focuses min(i+1, n-1), ArrowUp max(i-1, 0), Home 0 and End n-1, with the state unchanged. With it detached, these keys do nothing. |
| `MenuLaws.StepFocusInLevel` | components/menu.tsx:112-135 | Every focus move an event causes lands on an item of the visible level. |
| `MenuLaws.SlideMirror` | components/menu.tsx:28-41 | The entry and exit offsets for a direction are negations of each other. Flipping the direction swaps the entry and exit poses. |
| `MenuLaws.DrillDownAndDismiss` | components/menu.tsx:56-105 | With root [A] and A holding [A1]: opening shows [A]. Clicking A shows [A1], moving forward, with no callback. Escape shows [A], moving back, with no callback. A second Escape calls `onClose` once and changes nothing. |
| `MenuComponent.Menu.constructor` | components/menu.tsx:47-48 | The initial state is `InitialNav(menuData)` and no callback has fired. |
| `MenuComponent.Menu.ResetOnOpen` | components/menu.tsx:55-61 | The new state is `OpenEffect` of the old one. No callback fires. |
| `MenuComponent.Menu.NavigateToSubmenu` | components/menu.tsx:64-67 | The new state is the old one after `NavigateToSubmenu`. No callback fires. |
| `MenuComponent.Menu.NavigateBack` | components/menu.tsx:69-74 | The new state is the old one after `NavigateBack`. No callback fires. |
| `MenuComponent.Menu.OnClose` | components/menu.tsx:21 | Calling the `onClose` prop appends one close request to the log and leaves the state alone. |
| `MenuComponent.Menu.HandleMenuItemClick` | components/menu.tsx:76-89 | State and log equal `HandleMenuItemClick` applied to the old state. |
| `MenuComponent.Menu.HandleClose` | components/menu.tsx:91-97 | State and log equal `HandleClose` applied to the old state. |
| `MenuComponent.Menu.HandleDialogKeyDown` | components/menu.tsx:100-108 | State and log equal `HandleDialogKeyDown` applied to the old state. |
| `MenuComponent.Menu.FocusItem` | components/menu.tsx:115-117 | Focus is logged only for an existing item. The state is unchanged. |
| `MenuComponent.Menu.HandleItemKeyDown` | components/menu.tsx:110-144 | State and log equal `HandleItemKeyDown` applied to the old state. |
| `MenuComponent.Menu.Dispatch` | components/menu.tsx:164-213 | Delivering an event changes the state and the log exactly as `Step` says. |

## Left out

- JSX rendering, CSS classes, icons, `description` display and the aria attributes other than the menu's `aria-label` (components/menu.tsx:146-253): presentation only.
- The drawer library (Vaul) root, portal and overlay. This includes `onOpenChange={onClose}` and the overlay's `onClick={onClose}` (components/menu.tsx:147-152). These are external, and they call `onClose` at any depth, outside `handleClose`. If the drawer also dismisses itself on Escape, one Escape below the root both goes back and closes. The Escape laws in `MenuLaws` describe only the component's own key handlers.
- Animation: the motion library, `AnimatePresence`, the `0.3`/`0.25` durations and the cubic easing (components/menu.tsx:43-44, 158-175). These are floating-point tweens. Only the integer percent offsets and the 0/1 opacities of `slideVariants` are modelled.
- `useMeasure` height measurement (components/menu.tsx:49, 159): DOM layout.
- DOM querying and `.focus()` (components/menu.tsx:112-117). The number of rendered items is an input of `HandleItemKeyDown`, and a focus call is an effect in the log. Whether `menuRef` is attached is an input of each item key event and is not derived from the render timeline. `Step` assumes that an attached `menuRef` holds exactly the visible level's items.
- Events delivered to the exiting level while it slides out (components/menu.tsx:167-175). Its buttons keep their handlers and can keep focus, so a second activation of the same container pushes its submenu twice. That can break `MenuLaws.Linked`, which is proved only for the modelled events, which address the visible level.
- Callbacks that throw. `item.onClick` and `onClose` are assumed to return normally. If `onClick` throws, `onClose` (components/menu.tsx:84-85) never runs, which `MenuLaws.RunActionsThenClose` does not cover.
- `preventDefault()` calls and the browser's own activation of a focused button by Enter or Space: browser behaviour outside the component.
- React scheduling (`useCallback` closures, the stale `menuHistory.length` in `navigateBack`, batched `setState`). Every handler is modelled as one sequential, atomic update. For an item key, the item handler runs first and then the bubbling dialog handler. The two handle disjoint keys, so the order does not matter.
- app/page.tsx: static demo data and an open toggle, with no logic. `MenuLaws.DrillDownAndDismiss` uses a small tree of its own instead.
