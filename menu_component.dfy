/** The `Menu` component as an object: its two pieces of React state are the
    fields `menuHistory` and `direction`, each handler is a method that updates
    them in place, and the callbacks it fires (`item.onClick()`, `onClose()`,
    `.focus()`) are appended to a ghost log. Every method is proved to do what
    the corresponding function of MenuModel describes. */
module MenuComponent {
  import opened MenuModel

  class Menu {
    var menuHistory: seq<seq<MenuItem>>
    var direction: Direction
    ghost var effects: seq<Effect>

    /** The component state as a value. */
    function State(): Nav
      reads this
    {
      Nav(menuHistory, direction)
    }

    /** First render: `useState([menuData])` and `useState(1)`. */
    constructor (menuData: seq<MenuItem>)
      ensures State() == InitialNav(menuData) && effects == []
    {
      menuHistory := [menuData];
      direction := Forward;
      effects := [];
    }

    /** The reset effect, run after a render in which `isOpen` or `menuData` changed. */
    method ResetOnOpen(isOpen: bool, menuData: seq<MenuItem>)
      modifies this
      ensures State() == OpenEffect(old(State()), isOpen, menuData)
      ensures effects == old(effects)
    {
      if isOpen {
        menuHistory := [menuData];
        direction := Forward;
      }
    }

    method NavigateToSubmenu(submenu: seq<MenuItem>)
      modifies this
      ensures State() == old(State()).NavigateToSubmenu(submenu)
      ensures effects == old(effects)
    {
      direction := Forward;
      menuHistory := menuHistory + [submenu];
    }

    method NavigateBack()
      modifies this
      ensures State() == old(State()).NavigateBack()
      ensures effects == old(effects)
    {
      if |menuHistory| > 1 {
        direction := Backward;
        menuHistory := menuHistory[..|menuHistory| - 1];
      }
    }

    /** The `onClose` prop: recorded, state untouched. */
    method OnClose()
      modifies this
      ensures State() == old(State())
      ensures effects == old(effects) + [CloseRequested]
    {
      effects := effects + [CloseRequested];
    }

    method HandleMenuItemClick(item: MenuItem)
      modifies this
      ensures State() == old(State()).HandleMenuItemClick(item).nav
      ensures effects == old(effects) + old(State()).HandleMenuItemClick(item).effects
    {
      if item.submenu.Some? && |item.submenu.value| > 0 {
        NavigateToSubmenu(item.submenu.value);
        return;
      }
      if item.onClick.Some? {
        effects := effects + [ItemAction(item.onClick.value)];
        OnClose();
      }
    }

    method HandleClose()
      modifies this
      ensures State() == old(State()).HandleClose().nav
      ensures effects == old(effects) + old(State()).HandleClose().effects
    {
      var isRootLevel := |menuHistory| == 1;
      if !isRootLevel {
        NavigateBack();
      } else {
        OnClose();
      }
    }

    method HandleDialogKeyDown(key: string)
      modifies this
      ensures State() == old(State()).HandleDialogKeyDown(key).nav
      ensures effects == old(effects) + old(State()).HandleDialogKeyDown(key).effects
    {
      if key == EscapeKey {
        HandleClose();
      }
    }

    /** `focusItem`: focus the rendered item at `target`, if there is one. */
    method FocusItem(target: int, count: nat)
      modifies this
      ensures State() == old(State())
      ensures effects == old(effects) + MenuModel.FocusItem(target, count)
    {
      if 0 <= target < count {
        effects := effects + [FocusMoved(target)];
      }
    }

    /** `handleItemKeyDown`; `menuItems` is the number of rendered menu items,
        or None when the level's container is not mounted. */
    method HandleItemKeyDown(key: string, item: MenuItem, index: int, menuItems: Option<nat>)
      modifies this
      ensures State() == old(State()).HandleItemKeyDown(key, item, index, menuItems).nav
      ensures effects == old(effects) + old(State()).HandleItemKeyDown(key, item, index, menuItems).effects
    {
      if menuItems.None? {
        return;
      }
      var count := menuItems.value;
      if key == ArrowDown {
        FocusItem(if index + 1 < count as int - 1 then index + 1 else count as int - 1, count);
      } else if key == ArrowUp {
        FocusItem(if index - 1 > 0 then index - 1 else 0, count);
      } else if key == HomeKey {
        FocusItem(0, count);
      } else if key == EndKey {
        FocusItem(count as int - 1, count);
      } else if key == EnterKey || key == SpaceKey {
        HandleMenuItemClick(item);
      }
    }

    /** Deliver one input event to the rendered component. */
    method Dispatch(e: UiEvent)
      requires State().Valid()
      modifies this
      ensures State() == Step(old(State()), e).nav
      ensures effects == old(effects) + Step(old(State()), e).effects
    {
      var currentMenu := menuHistory[|menuHistory| - 1];
      match e
      case OpenChanged(isOpen, menuData) =>
        ResetOnOpen(isOpen, menuData);
      case ItemClick(i) =>
        if i < |currentMenu| {
          HandleMenuItemClick(currentMenu[i]);
        }
      case BackClick =>
        NavigateBack();
      case DialogKey(key) =>
        HandleDialogKeyDown(key);
      case ItemKey(i, key, mounted) =>
        if i < |currentMenu| {
          HandleItemKeyDown(key, currentMenu[i], i, if mounted then Some(|currentMenu|) else None);
          HandleDialogKeyDown(key);
        }
    }
  }

  /** A client of the contracts alone: the drill-down-and-dismiss walk
      through a two-level menu. */
  method DrillDownScenario()
  {
    var a1 := MenuItem("a1", "A1", None, None, None);
    var a := MenuItem("a", "A", None, Some([a1]), None);
    var menu := new Menu([a]);
    menu.Dispatch(OpenChanged(true, [a]));
    assert menu.State() == Nav([[a]], Forward) && menu.effects == [];
    menu.Dispatch(ItemClick(0));
    assert menu.State().CurrentMenu() == [a1] && menu.direction == Forward && menu.effects == [];
    menu.Dispatch(DialogKey(EscapeKey));
    assert menu.State().IsRootLevel() && menu.direction == Backward && menu.effects == [];
    menu.Dispatch(DialogKey(EscapeKey));
    assert menu.State().IsRootLevel() && menu.effects == [CloseRequested];
  }
}
