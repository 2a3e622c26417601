/** The drill-down navigation menu as values: the item tree, the navigation
    state (a stack of item-list snapshots plus the direction of the last move),
    the handlers of the `Menu` component as functions from the old state to the
    new state and the callbacks they fire, the focus arithmetic of the item key
    handler, and the slide offsets of the level transition. */
module MenuModel {

  datatype Option<+T> = None | Some(value: T)

  /** The identity of an item's `onClick` callback. Invoking it is recorded as
      an effect; what the callback does belongs to the caller. */
  datatype Callback = Callback(name: string)

  /** A menu entry as the caller supplies it. The icon is presentation only
      and is not part of the model. */
  datatype MenuItem = MenuItem(
    id: string,
    caption: string,   // the `label` field (`label` is a Dafny keyword)
    description: Option<string>,
    submenu: Option<seq<MenuItem>>,
    onClick: Option<Callback>)

  /** The truthiness of `item.submenu?.length`: a submenu is present and not empty. */
  predicate HasSubmenu(item: MenuItem)
  {
    item.submenu.Some? && |item.submenu.value| > 0
  }

  /** The travel direction of the last move: 1 forward, -1 back. */
  type Direction = d: int | d == 1 || d == -1 witness 1

  const Forward: Direction := 1
  const Backward: Direction := -1

  /** Callbacks the component fires, in the order it fires them. */
  datatype Effect =
    | ItemAction(callback: Callback)   // item.onClick()
    | CloseRequested                   // the onClose prop
    | FocusMoved(index: nat)           // .focus() on the index-th rendered menu item

  /** A new navigation state together with the callbacks fired to reach it. */
  datatype Outcome = Outcome(nav: Nav, effects: seq<Effect>)

  /** Sequential composition of two handlers run for one input event. */
  function Then(first: Outcome, second: Outcome): (o: Outcome)
  {
    Outcome(second.nav, first.effects + second.effects)
  }

  const ArrowDown: string := "ArrowDown"
  const ArrowUp: string := "ArrowUp"
  const HomeKey: string := "Home"
  const EndKey: string := "End"
  const EnterKey: string := "Enter"
  const SpaceKey: string := " "
  const EscapeKey: string := "Escape"

  /** The focus target `handleItemKeyDown` computes for a key pressed on the
      item at `index` of a level with `count` rendered items; None for a key
      that does not move focus. */
  function FocusTarget(key: string, index: int, count: nat): (t: Option<int>)
    ensures t.Some? <==> key in {ArrowDown, ArrowUp, HomeKey, EndKey}
    ensures t.Some? && 0 <= index < count ==> 0 <= t.value < count
  {
    if key == ArrowDown then Some(if index + 1 < count - 1 then index + 1 else count - 1)
    else if key == ArrowUp then Some(if index - 1 > 0 then index - 1 else 0)
    else if key == HomeKey then Some(0)
    else if key == EndKey then Some(count - 1)
    else None
  }

  /** `focusItem(t)`: focus moves only when a rendered item sits at index t. */
  function FocusItem(t: int, count: nat): (e: seq<Effect>)
    ensures e == [] || (0 <= t < count && e == [FocusMoved(t)])
    ensures 0 <= t < count ==> e != []
  {
    if 0 <= t < count then [FocusMoved(t)] else []
  }

  /** The state of one `Menu` instance: `menuHistory` (root level at index 0,
      visible level last) and `direction`. */
  datatype Nav = Nav(history: seq<seq<MenuItem>>, direction: Direction) {

    /** The history is never empty, so the current level is always defined. */
    predicate Valid()
    {
      |history| >= 1
    }

    /** `isRootLevel`. */
    predicate IsRootLevel()
    {
      |history| == 1
    }

    /** `currentMenu`: the top of the history stack. */
    function CurrentMenu(): seq<MenuItem>
      requires Valid()
    {
      history[|history| - 1]
    }

    /** `navigateToSubmenu`: push the submenu and move forward. */
    function NavigateToSubmenu(submenu: seq<MenuItem>): (r: Nav)
      ensures r.Valid() && r.CurrentMenu() == submenu && r.direction == Forward
      ensures |r.history| == |history| + 1 && r.history[..|history|] == history
      ensures Valid() ==> !r.IsRootLevel()
    {
      Nav(history + [submenu], Forward)
    }

    /** `navigateBack`: below the root, drop the top level and move back;
        at the root (or on an empty history) nothing changes. */
    function NavigateBack(): (r: Nav)
      ensures |history| > 1 ==> |r.history| == |history| - 1 && r.direction == Backward
      ensures |history| > 1 ==> history == r.history + [CurrentMenu()]
      ensures |history| <= 1 ==> r == this
      ensures Valid() ==> r.Valid()
    {
      if |history| > 1 then Nav(history[..|history| - 1], Backward) else this
    }

    /** `handleMenuItemClick`: an item with a non-empty submenu opens it and
        fires nothing, whatever `onClick` it also has; otherwise an item with
        `onClick` fires it and then `onClose`, and an item with neither does
        nothing. */
    function HandleMenuItemClick(item: MenuItem): (o: Outcome)
      ensures HasSubmenu(item) ==> o.effects == [] && o.nav == NavigateToSubmenu(item.submenu.value)
      ensures !HasSubmenu(item) ==> o.nav == this
      ensures !HasSubmenu(item) && item.onClick.Some? ==>
        o.effects == [ItemAction(item.onClick.value), CloseRequested]
      ensures !HasSubmenu(item) && item.onClick.None? ==> o.effects == []
    {
      if HasSubmenu(item) then Outcome(NavigateToSubmenu(item.submenu.value), [])
      else if item.onClick.Some? then Outcome(this, [ItemAction(item.onClick.value), CloseRequested])
      else Outcome(this, [])
    }

    /** `handleClose`: below the root go back one level without closing; at
        the root request close once and keep the history. */
    function HandleClose(): (o: Outcome)
      ensures IsRootLevel() <==> o.effects == [CloseRequested]
      ensures !IsRootLevel() ==> o.effects == [] && o.nav == NavigateBack()
      ensures IsRootLevel() ==> o.nav == this
    {
      if !IsRootLevel() then Outcome(NavigateBack(), []) else Outcome(this, [CloseRequested])
    }

    /** `handleDialogKeyDown`: Escape is the close/back gesture; any other key
        is ignored by the dialog. */
    function HandleDialogKeyDown(key: string): (o: Outcome)
      ensures key == EscapeKey ==> o == HandleClose()
      ensures key != EscapeKey ==> o == Outcome(this, [])
    {
      if key == EscapeKey then HandleClose() else Outcome(this, [])
    }

    /** `handleItemKeyDown` for `item` at `index`, where `menuItems` is the
        number of rendered menu items, or None when the level's container is
        not mounted (the handler then returns at once). */
    function HandleItemKeyDown(key: string, item: MenuItem, index: int, menuItems: Option<nat>): (o: Outcome)
      ensures menuItems.None? ==> o == Outcome(this, [])
      ensures menuItems.Some? && (key == EnterKey || key == SpaceKey) ==> o == HandleMenuItemClick(item)
      ensures key != EnterKey && key != SpaceKey ==> o.nav == this
      ensures menuItems.Some? && 0 <= index < menuItems.value && key in {ArrowDown, ArrowUp, HomeKey, EndKey} ==>
        exists t :: 0 <= t < menuItems.value && o.effects == [FocusMoved(t)]
      ensures menuItems.Some? && FocusTarget(key, index, menuItems.value).Some? ==>
        o.effects == FocusItem(FocusTarget(key, index, menuItems.value).value, menuItems.value)
      ensures menuItems.Some? && key !in {ArrowDown, ArrowUp, HomeKey, EndKey, EnterKey, SpaceKey} ==> o.effects == []
    {
      if menuItems.None? then Outcome(this, [])
      else if key == EnterKey || key == SpaceKey then HandleMenuItemClick(item)
      else
        match FocusTarget(key, index, menuItems.value)
        case Some(t) => Outcome(this, FocusItem(t, menuItems.value))
        case None => Outcome(this, [])
    }

    /** The `aria-label` of the visible level: "Menu" at the root, else the
        label of the level's first item unless it is missing or empty, in which
        case "Submenu". */
    function AriaLabel(): (text: string)
      requires Valid()
      ensures |text| > 0
      ensures IsRootLevel() ==> text == "Menu"
      ensures !IsRootLevel() && |CurrentMenu()| > 0 && CurrentMenu()[0].caption != "" ==> text == CurrentMenu()[0].caption
      ensures !IsRootLevel() && (|CurrentMenu()| == 0 || CurrentMenu()[0].caption == "") ==> text == "Submenu"
    {
      if IsRootLevel() then "Menu"
      else if |CurrentMenu()| > 0 && CurrentMenu()[0].caption != "" then CurrentMenu()[0].caption
      else "Submenu"
    }
  }

  /** The state the component starts in, and the state the open effect
      resets to: only the root level, moving forward. */
  function InitialNav(menuData: seq<MenuItem>): (n: Nav)
    ensures n.Valid() && n.IsRootLevel() && n.CurrentMenu() == menuData && n.direction == Forward
  {
    Nav([menuData], Forward)
  }

  /** The reset effect, run when `isOpen` or `menuData` changes: when open,
      the earlier state is discarded. */
  function OpenEffect(n: Nav, isOpen: bool, menuData: seq<MenuItem>): (r: Nav)
    ensures isOpen ==> r.IsRootLevel() && r.CurrentMenu() == menuData && r.direction == Forward
    ensures !isOpen ==> r == n
  {
    if isOpen then InitialNav(menuData) else n
  }

  /** The horizontal offset (percent of the width) and opacity of a level. */
  datatype Pose = Pose(xPercent: int, opacity: int)

  /** `slideVariants.initial`: where an incoming level starts. */
  function InitialPose(d: Direction): (p: Pose)
    ensures p.opacity == 0
    ensures p.xPercent == 110 || p.xPercent == -110
    ensures p.xPercent > 0 <==> d == Forward
  {
    Pose(110 * d, 0)
  }

  /** `slideVariants.active`: a level at rest. */
  const ActivePose: Pose := Pose(0, 1)

  /** `slideVariants.exit`: where an outgoing level ends. */
  function ExitPose(d: Direction): (p: Pose)
    ensures p.opacity == 0
    ensures p.xPercent == 110 || p.xPercent == -110
    ensures p.xPercent < 0 <==> d == Forward
  {
    Pose(-110 * d, 0)
  }

  /** An input event reaching the rendered component. Items are addressed by
      their position in the visible level, as the rendered buttons are. */
  datatype UiEvent =
    | OpenChanged(isOpen: bool, menuData: seq<MenuItem>)   // the reset effect runs
    | ItemClick(index: nat)                                // click on a menu item button
    | BackClick                                            // click on the Back button
    | DialogKey(key: string)                               // key down on the dialog itself
    | ItemKey(index: nat, key: string, mounted: bool)      // key down on a menu item, bubbling to the dialog;
                                                           // `mounted`: `menuRef.current` is attached

  /** One input event, handled atomically. While `menuRef` is attached, the
      rendered menu items it holds are the visible level, so the item count is
      its length; when it is detached, the item key handler returns at once. */
  function Step(n: Nav, e: UiEvent): (o: Outcome)
    requires n.Valid()
    ensures o.nav.Valid()
  {
    match e
    case OpenChanged(isOpen, menuData) => Outcome(OpenEffect(n, isOpen, menuData), [])
    case ItemClick(i) =>
      if i < |n.CurrentMenu()| then n.HandleMenuItemClick(n.CurrentMenu()[i]) else Outcome(n, [])
    case BackClick => Outcome(n.NavigateBack(), [])
    case DialogKey(key) => n.HandleDialogKeyDown(key)
    case ItemKey(i, key, mounted) =>
      if i < |n.CurrentMenu()| then
        var o := n.HandleItemKeyDown(key, n.CurrentMenu()[i], i, if mounted then Some(|n.CurrentMenu()|) else None);
        Then(o, o.nav.HandleDialogKeyDown(key))
      else Outcome(n, [])
  }

  /** A sequence of input events, handled one after the other; the effects
      are the concatenation of every step's effects. */
  function Run(n: Nav, events: seq<UiEvent>): (o: Outcome)
    requires n.Valid()
    ensures o.nav.Valid()
    decreases |events|
  {
    if events == [] then Outcome(n, [])
    else Then(Step(n, events[0]), Run(Step(n, events[0]).nav, events[1..]))
  }
}
