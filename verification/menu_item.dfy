/** The active-state machine of one menu row (the `MenuItem` component).

    The component keeps a local `isActive` flag. It is initialised from
    `activeItemIndex === index`, re-synchronised whenever the
    `activeItemIndex` prop changes, and flipped by hovering when no parent
    setter is supplied. With a setter, hovering only asks the parent to
    change the shared index. Every transition to an active state requests
    DOM focus; clicks and the Enter key invoke `onClick` only through a gate.

    React's runtime is abstracted: a step takes the current state and one
    event, and returns the next state together with the effects emitted,
    assuming every effect hook has run before the next event arrives. */
module MenuItem {
  import opened Options

  /** The "no active item" value: the default of `activeItemIndex` and the
      setter's argument on mouse-out. */
  const NoActiveIndex: int := -1

  /** The props that do not change during the item's lifetime. */
  datatype Config = Config(
    index: Option<int>,   // None is the default `undefined`
    hasSetter: bool,      // `setActiveItemIndex` was supplied
    hasOnClick: bool,     // `onClick` was supplied
    disabled: bool)

  /** The default props: no index, no setter, no click handler, enabled. */
  const DefaultConfig: Config := Config(None, false, false, false)

  /** The local `isActive` flag and the last `activeItemIndex` the
      component rendered with (the dependency its re-sync effect compares). */
  datatype State = State(isActive: bool, activeItemIndex: int)

  datatype Event =
    | PropChange(newIndex: int)   // the parent re-renders with this activeItemIndex
    | MouseOver
    | MouseOut
    | Click
    | EnterKey

  datatype Effect =
    | CallSetter(arg: Option<int>)   // setActiveItemIndex(arg); None is undefined
    | InvokeOnClick                  // onClick(event)
    | RequestFocus                   // itemRef.current.focus()

  /** JavaScript's `activeItemIndex === index`: a number is never strictly
      equal to `undefined`. */
  predicate IndexMatches(activeItemIndex: int, index: Option<int>)
  {
    index.Some? && index.value == activeItemIndex
  }

  /** The state-and-effects pair every operation returns. */
  type Outcome = (State, seq<Effect>)

  /** True when no effect in `effs` calls the parent's setter. */
  predicate NoSetterCall(effs: seq<Effect>)
  {
    forall i :: 0 <= i < |effs| ==> !effs[i].CallSetter?
  }

  /** Mounting: `useState(activeItemIndex === index)`, then the effects run
      once. The re-sync effect writes the value the flag already has, and
      the focus effect focuses the row when it starts active. */
  function Mount(cfg: Config, activeItemIndex: int): (r: Outcome)
    ensures r.0.isActive <==> IndexMatches(activeItemIndex, cfg.index)
    ensures r.0.activeItemIndex == activeItemIndex
    ensures RequestFocus in r.1 <==> r.0.isActive
    ensures |r.1| <= 1 && NoSetterCall(r.1) && InvokeOnClick !in r.1
  {
    var active := IndexMatches(activeItemIndex, cfg.index);
    (State(active, activeItemIndex), if active then [RequestFocus] else [])
  }

  /** `setIsActive(v)` followed by the focus effect keyed on `isActive`.
      Writing the value the flag already has changes nothing, so the focus
      effect does not run; otherwise it focuses exactly when `v` is true. */
  function SetIsActive(st: State, v: bool): (r: Outcome)
    ensures r.0.isActive == v && r.0.activeItemIndex == st.activeItemIndex
    ensures RequestFocus in r.1 <==> !st.isActive && v
    ensures forall e :: e in r.1 ==> e == RequestFocus
    ensures |r.1| <= 1
  {
    if v == st.isActive then (st, [])
    else (st.(isActive := v), if v then [RequestFocus] else [])
  }

  /** The re-sync effect keyed on `activeItemIndex`: it only runs when the
      prop differs from the one last rendered, and then sets the flag to
      whether the new value names this item. */
  function ResyncOnPropChange(cfg: Config, st: State, n: int): (r: Outcome)
    ensures r.0.activeItemIndex == n
    ensures n == st.activeItemIndex ==> r == (st, [])
    ensures n != st.activeItemIndex ==> (r.0.isActive <==> IndexMatches(n, cfg.index))
    ensures RequestFocus in r.1 <==> !st.isActive && r.0.isActive
    ensures forall e :: e in r.1 ==> e == RequestFocus
  {
    if n == st.activeItemIndex then (st, [])
    else SetIsActive(st.(activeItemIndex := n), IndexMatches(n, cfg.index))
  }

  /** `onClickCallback`: invoke the handler once when there is one, the
      item is enabled and it is active; otherwise drop the event. */
  function OnClickCallback(cfg: Config, st: State): (effs: seq<Effect>)
    ensures cfg.hasOnClick && !cfg.disabled && st.isActive ==> effs == [InvokeOnClick]
    ensures !(cfg.hasOnClick && !cfg.disabled && st.isActive) ==> effs == []
  {
    if cfg.hasOnClick && !cfg.disabled && st.isActive then [InvokeOnClick] else []
  }

  /** `setActive` (mouse-over): with a setter, ask the parent to make this
      index the active one and leave the flag alone; without one, set the
      flag, focusing when it was off. */
  function SetActive(cfg: Config, st: State): (r: Outcome)
    ensures cfg.hasSetter ==> r == (st, [CallSetter(cfg.index)])
    ensures !cfg.hasSetter ==> r.0 == st.(isActive := true)
    ensures !cfg.hasSetter ==> (r.1 == [RequestFocus] <==> !st.isActive)
    ensures !cfg.hasSetter ==> (r.1 == [] <==> st.isActive)
  {
    if cfg.hasSetter then (st, [CallSetter(cfg.index)])
    else SetIsActive(st, true)
  }

  /** `setUnActive` (mouse-out): with a setter, ask the parent for "no
      active item"; without one, clear the flag. Never requests focus. */
  function SetUnActive(cfg: Config, st: State): (r: Outcome)
    ensures cfg.hasSetter ==> r == (st, [CallSetter(Some(NoActiveIndex))])
    ensures !cfg.hasSetter ==> r == (st.(isActive := false), [])
  {
    if cfg.hasSetter then (st, [CallSetter(Some(NoActiveIndex))])
    else SetIsActive(st, false)
  }

  /** One event followed by every effect hook it triggers. */
  function Step(cfg: Config, st: State, ev: Event): (r: Outcome)
    // focus is edge-triggered: it is requested exactly on a rise of isActive
    ensures RequestFocus in r.1 <==> !st.isActive && r.0.isActive
    // only the parent's prop moves the remembered activeItemIndex
    ensures r.0.activeItemIndex == (if ev.PropChange? then ev.newIndex else st.activeItemIndex)
    // the setter is only ever called from hovering, and only in setter mode
    ensures (exists i :: 0 <= i < |r.1| && r.1[i].CallSetter?) ==>
              cfg.hasSetter && (ev.MouseOver? || ev.MouseOut?)
    // in setter mode only a prop change can move the flag
    ensures cfg.hasSetter && !ev.PropChange? ==> r.0 == st
    // clicks and Enter never change state and fire through the gate
    ensures ev.Click? || ev.EnterKey? ==> r.0 == st
    ensures InvokeOnClick in r.1 <==>
              (ev.Click? || ev.EnterKey?) && cfg.hasOnClick && !cfg.disabled && st.isActive
    ensures |r.1| <= 1
  {
    match ev
    case PropChange(n) => ResyncOnPropChange(cfg, st, n)
    case MouseOver => SetActive(cfg, st)
    case MouseOut => SetUnActive(cfg, st)
    case Click => (st, OnClickCallback(cfg, st))
    case EnterKey => (st, OnClickCallback(cfg, st))
  }

  /** The two state-dependent class names of the root element. */
  datatype ClassFlags = ClassFlags(disabled: bool, focused: bool)

  /** `monday-style-menu-item--disabled` follows `disabled` and
      `monday-style-menu-item--focused` follows `isActive`. */
  function RenderClassFlags(cfg: Config, st: State): (f: ClassFlags)
    ensures f.focused == st.isActive
    ensures f.disabled == cfg.disabled
  {
    ClassFlags(cfg.disabled, st.isActive)
  }

  /** With the default props (no index, activeItemIndex -1) the row mounts
      inactive and does not take focus; an explicit matching index mounts
      it active and focused. */
  lemma DefaultMountIsInactive(cfg: Config)
    requires cfg.index.None?
    ensures Mount(cfg, NoActiveIndex).0.isActive == false
    ensures Mount(cfg, NoActiveIndex).1 == []
    ensures forall n: int :: Mount(cfg, n) == (State(false, n), [])
  {
  }

  /** Without a setter, repeating mouse-over is idempotent: the second one
      neither changes the state nor emits anything. */
  lemma MouseOverIdempotent(cfg: Config, st: State)
    requires !cfg.hasSetter
    ensures var s1 := Step(cfg, st, MouseOver).0;
            Step(cfg, s1, MouseOver) == (s1, [])
  {
  }

  /** With a setter, repeating mouse-over repeats the same single setter
      call and nothing else. */
  lemma MouseOverWithSetterRepeats(cfg: Config, st: State)
    requires cfg.hasSetter
    ensures var r1 := Step(cfg, st, MouseOver);
            r1.0 == st && Step(cfg, r1.0, MouseOver) == r1 && r1.1 == [CallSetter(cfg.index)]
  {
  }
}
