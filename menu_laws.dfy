/** Properties of the navigation model: the history stack stays non-empty and
    linked to the item tree, going back undoes going forward, repeated
    dismissal unwinds one level at a time before it closes, callbacks fire in
    order, focus stays on the visible level, and the slide offsets mirror. */
module MenuLaws {
  import opened MenuModel

  /** Each level above the root is the non-empty submenu of an item of the
      level below it: the stack is a route down the item tree. */
  ghost predicate Linked(history: seq<seq<MenuItem>>)
  {
    forall i :: 1 <= i < |history| ==> LeadsTo(history[i - 1], history[i])
  }

  ghost predicate LeadsTo(level: seq<MenuItem>, sub: seq<MenuItem>)
  {
    exists j :: 0 <= j < |level| && HasSubmenu(level[j]) && level[j].submenu.value == sub
  }

  /** Every `onClick` fired is followed at once by `onClose`. */
  ghost predicate ActionsThenClose(log: seq<Effect>)
  {
    forall i :: 0 <= i < |log| && log[i].ItemAction? ==> i + 1 < |log| && log[i + 1] == CloseRequested
  }

  /** `navigateBack` applied k times. */
  function BackN(n: Nav, k: nat): Nav
    decreases k
  {
    if k == 0 then n else BackN(n.NavigateBack(), k - 1)
  }

  /** k presses of Escape on the dialog. */
  function Escapes(k: nat): (events: seq<UiEvent>)
  {
    seq(k, _ => DialogKey(EscapeKey))
  }

  function Closes(k: nat): (log: seq<Effect>)
  {
    seq(k, _ => CloseRequested)
  }

  // ---------------------------------------------------------------------
  // Opening

  /** Opening forgets everything about the earlier state. */
  lemma OpenDiscardsState(n1: Nav, n2: Nav, menuData: seq<MenuItem>)
    ensures OpenEffect(n1, true, menuData) == OpenEffect(n2, true, menuData) == Nav([menuData], Forward)
  {
  }

  // ---------------------------------------------------------------------
  // Forward and back

  /** Pushing a submenu and going back restores the earlier stack exactly. */
  lemma PushBackRoundTrip(n: Nav, submenu: seq<MenuItem>)
    requires n.Valid()
    ensures n.NavigateToSubmenu(submenu).NavigateBack() == Nav(n.history, Backward)
  {
  }

  /** Opening a container item and then dismissing comes back to the same
      level, and neither step fires a callback. */
  lemma ClickThenCloseRoundTrip(n: Nav, item: MenuItem)
    requires n.Valid() && HasSubmenu(item)
    ensures n.HandleMenuItemClick(item).nav.HandleClose() == Outcome(Nav(n.history, Backward), [])
  {
  }

  /** k back steps keep the bottom max(d - k, 1) levels of a stack of depth d;
      the direction is Backward as soon as one of them popped a level. */
  lemma {:induction false} BackNHistory(n: Nav, k: nat)
    requires n.Valid()
    ensures var keep := if |n.history| - k > 1 then |n.history| - k else 1;
      BackN(n, k).history == n.history[..keep]
    ensures BackN(n, k).direction == if k > 0 && |n.history| > 1 then Backward else n.direction
    decreases k
  {
    if k > 0 {
      var m := n.NavigateBack();
      BackNHistory(m, k - 1);
      if |n.history| > 1 {
        var keep := if |n.history| - k > 1 then |n.history| - k else 1;
        assert m.history[..keep] == n.history[..keep];
      } else {
        assert n.history[..1] == n.history;
      }
    } else {
      assert n.history[..|n.history|] == n.history;
    }
  }

  /** From depth d, d - 1 back steps reach the root level, and further back
      steps change nothing. */
  lemma BackToRoot(n: Nav, extra: nat)
    requires n.Valid()
    ensures BackN(n, |n.history| - 1).IsRootLevel()
    ensures BackN(n, |n.history| - 1).history == [n.history[0]]
    ensures BackN(n, |n.history| - 1 + extra) == BackN(n, |n.history| - 1)
  {
    BackNHistory(n, |n.history| - 1);
    BackNHistory(n, |n.history| - 1 + extra);
  }

  // ---------------------------------------------------------------------
  // Running event sequences

  /** Below the root, each Escape goes back one level and fires nothing. */
  lemma {:induction false} EscapesUnwind(n: Nav, k: nat)
    requires n.Valid() && k < |n.history|
    ensures Run(n, Escapes(k)) == Outcome(BackN(n, k), [])
    decreases k
  {
    if k > 0 {
      var m := Step(n, DialogKey(EscapeKey)).nav;
      assert m == n.NavigateBack();
      assert Escapes(k)[0] == DialogKey(EscapeKey);
      assert Escapes(k)[1..] == Escapes(k - 1);
      EscapesUnwind(m, k - 1);
    }
  }

  /** At the root, each Escape requests close once and changes nothing else. */
  lemma {:induction false} EscapesAtRoot(n: Nav, k: nat)
    requires n.Valid() && n.IsRootLevel()
    ensures Run(n, Escapes(k)) == Outcome(n, Closes(k))
    decreases k
  {
    if k > 0 {
      assert Escapes(k)[0] == DialogKey(EscapeKey);
      assert Escapes(k)[1..] == Escapes(k - 1);
      EscapesAtRoot(n, k - 1);
      assert [CloseRequested] + Closes(k - 1) == Closes(k);
    }
  }

  /** From depth d, d - 1 presses of Escape reach the root level without
      closing. */
  lemma EscapesReachRoot(n: Nav)
    requires n.Valid()
    ensures Run(n, Escapes(|n.history| - 1)).effects == []
    ensures Run(n, Escapes(|n.history| - 1)).nav.history == [n.history[0]]
  {
    EscapesUnwind(n, |n.history| - 1);
    BackToRoot(n, 0);
  }

  /** After those d - 1 presses, every further press requests close exactly
      once and leaves the state at the root. */
  lemma {:induction false} EscapesThenClose(n: Nav, extra: nat)
    requires n.Valid()
    ensures Run(n, Escapes(|n.history| - 1 + extra)).effects == Closes(extra)
    ensures Run(n, Escapes(|n.history| - 1 + extra)).nav == Run(n, Escapes(|n.history| - 1)).nav
    decreases |n.history|
  {
    if n.IsRootLevel() {
      EscapesAtRoot(n, extra);
      EscapesAtRoot(n, 0);
    } else {
      var k := |n.history| - 1;
      var m := n.NavigateBack();
      assert Step(n, DialogKey(EscapeKey)) == Outcome(m, []);
      assert Escapes(k + extra)[0] == DialogKey(EscapeKey) && Escapes(k + extra)[1..] == Escapes(k - 1 + extra);
      assert Escapes(k)[0] == DialogKey(EscapeKey) && Escapes(k)[1..] == Escapes(k - 1);
      EscapesThenClose(m, extra);
      assert Run(n, Escapes(k + extra)) == Then(Outcome(m, []), Run(m, Escapes(k - 1 + extra)));
      assert Run(n, Escapes(k)) == Then(Outcome(m, []), Run(m, Escapes(k - 1)));
    }
  }

  /** Escape pressed on a focused item bubbles to the dialog and has exactly
      the effect of Escape on the dialog, so the laws above cover both routes. */
  lemma ItemEscapeIsDialogEscape(n: Nav, index: nat, mounted: bool)
    requires n.Valid() && index < |n.CurrentMenu()|
    ensures Step(n, ItemKey(index, EscapeKey, mounted)) == Step(n, DialogKey(EscapeKey))
  {
  }

  // ---------------------------------------------------------------------
  // Callbacks

  lemma ActionsThenCloseConcat(a: seq<Effect>, b: seq<Effect>)
    requires ActionsThenClose(a) && ActionsThenClose(b)
    ensures ActionsThenClose(a + b)
  {
  }

  /** A single event fires `onClose` only when dismissing at the root (and
      then leaves the state alone), or right after a leaf item's `onClick`. */
  lemma StepCloses(n: Nav, e: UiEvent)
    requires n.Valid()
    ensures var o := Step(n, e);
      CloseRequested in o.effects ==>
        o.nav == n && ((n.IsRootLevel() && o.effects == [CloseRequested])
                       || exists c :: o.effects == [ItemAction(c), CloseRequested])
  {
  }

  /** A single event's callbacks never fire `onClick` without `onClose` right after. */
  lemma StepActionsThenClose(n: Nav, e: UiEvent)
    requires n.Valid()
    ensures ActionsThenClose(Step(n, e).effects)
  {
  }

  /** Over any run of events, every `onClick` is followed at once by `onClose`. */
  lemma {:induction false} RunActionsThenClose(n: Nav, events: seq<UiEvent>)
    requires n.Valid()
    ensures ActionsThenClose(Run(n, events).effects)
    decreases |events|
  {
    if events != [] {
      StepActionsThenClose(n, events[0]);
      RunActionsThenClose(Step(n, events[0]).nav, events[1..]);
      ActionsThenCloseConcat(Step(n, events[0]).effects, Run(Step(n, events[0]).nav, events[1..]).effects);
    }
  }

  // ---------------------------------------------------------------------
  // The stack follows the item tree

  /** An event keeps the stack linked to the tree; only opening replaces the
      root level. */
  lemma StepLinked(n: Nav, e: UiEvent)
    requires n.Valid() && Linked(n.history)
    ensures Linked(Step(n, e).nav.history)
    ensures !e.OpenChanged? ==> Step(n, e).nav.history[0] == n.history[0]
  {
  }

  /** Every state reachable from a freshly rendered menu is linked and keeps
      the root level of the last open. */
  lemma {:induction false} RunLinked(n: Nav, events: seq<UiEvent>)
    requires n.Valid() && Linked(n.history)
    ensures Linked(Run(n, events).nav.history)
    ensures (forall i :: 0 <= i < |events| ==> !events[i].OpenChanged?) ==>
      Run(n, events).nav.history[0] == n.history[0]
    decreases |events|
  {
    if events != [] {
      StepLinked(n, events[0]);
      RunLinked(Step(n, events[0]).nav, events[1..]);
      if forall i :: 0 <= i < |events| ==> !events[i].OpenChanged? {
        assert forall i :: 0 <= i < |events[1..]| ==> events[1..][i] == events[i + 1];
      }
    }
  }

  // ---------------------------------------------------------------------
  // Keyboard

  /** From a valid index in a level of n items, the arrows move by one and
      clamp at the ends, Home goes to the first item and End to the last. */
  lemma FocusKeys(index: int, count: nat)
    requires 0 <= index < count
    ensures FocusTarget(ArrowDown, index, count) == Some(if index == count - 1 then index else index + 1)
    ensures FocusTarget(ArrowUp, index, count) == Some(if index == 0 then 0 else index - 1)
    ensures FocusTarget(HomeKey, index, count) == Some(0)
    ensures FocusTarget(EndKey, index, count) == Some(count - 1)
  {
  }

  /** Enter and Space on an item do exactly what a click on it does. */
  lemma ActivationKeysAreClicks(n: Nav, index: nat, key: string)
    requires n.Valid() && (key == EnterKey || key == SpaceKey)
    ensures Step(n, ItemKey(index, key, true)) == Step(n, ItemClick(index))
    ensures Step(n, ItemKey(index, key, false)) == Outcome(n, [])
  {
  }

  /** On an item of the visible level with `menuRef` attached, the arrows move
      focus by one and clamp at the ends, Home focuses the first item and End
      the last; with `menuRef` detached they do nothing. */
  lemma ItemKeyFocus(n: Nav, index: nat)
    requires n.Valid() && index < |n.CurrentMenu()|
    ensures var last := |n.CurrentMenu()| - 1;
      Step(n, ItemKey(index, ArrowDown, true)) == Outcome(n, [FocusMoved(if index == last then last else index + 1)])
      && Step(n, ItemKey(index, ArrowUp, true)) == Outcome(n, [FocusMoved(if index == 0 then 0 else index - 1)])
      && Step(n, ItemKey(index, HomeKey, true)) == Outcome(n, [FocusMoved(0)])
      && Step(n, ItemKey(index, EndKey, true)) == Outcome(n, [FocusMoved(last)])
    ensures forall key :: key in {ArrowDown, ArrowUp, HomeKey, EndKey} ==>
      Step(n, ItemKey(index, key, false)) == Outcome(n, [])
  {
  }

  /** Any focus an item key moves lands on an item of the visible level. */
  lemma StepFocusInLevel(n: Nav, e: UiEvent)
    requires n.Valid()
    ensures forall i :: 0 <= i < |Step(n, e).effects| && Step(n, e).effects[i].FocusMoved? ==>
      Step(n, e).effects[i].index < |n.CurrentMenu()|
  {
  }

  // ---------------------------------------------------------------------
  // Slide transition

  /** The incoming level enters from the side opposite to where the outgoing
      level leaves, and flipping the direction swaps the two. */
  lemma SlideMirror(d: Direction, flipped: Direction)
    requires flipped as int == -(d as int)
    ensures ExitPose(d).xPercent == -InitialPose(d).xPercent
    ensures InitialPose(flipped) == ExitPose(d) && ExitPose(flipped) == InitialPose(d)
  {
  }

  // ---------------------------------------------------------------------
  // A worked scenario

  /** Root [A] where A holds [A1]: open, click A, Escape, Escape. */
  lemma DrillDownAndDismiss(prior: Nav)
    requires prior.Valid()
    ensures
      var a1 := MenuItem("a1", "A1", None, None, None);
      var a := MenuItem("a", "A", None, Some([a1]), None);
      var shown := Step(prior, OpenChanged(true, [a]));
      var clicked := Step(shown.nav, ItemClick(0));
      var back := Step(clicked.nav, DialogKey(EscapeKey));
      var closed := Step(back.nav, DialogKey(EscapeKey));
      shown.nav.CurrentMenu() == [a] && shown.nav.IsRootLevel()
      && clicked.nav.CurrentMenu() == [a1] && clicked.nav.direction == Forward && clicked.effects == []
      && back.nav.CurrentMenu() == [a] && back.nav.direction == Backward && back.effects == []
      && closed.effects == [CloseRequested] && closed.nav == back.nav
  {
  }
}
