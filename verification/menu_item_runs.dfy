/** Sequences of events fed to one mounted menu item, and the properties
    that hold over whole runs rather than single steps. */
module MenuItemRuns {
  import opened Options
  import opened MenuItem

  /** The activeItemIndex remembered after `evs`: the argument of the last
      prop change, or `init` when there is none. */
  function LastIndex(init: int, evs: seq<Event>): int
    decreases |evs|
  {
    if |evs| == 0 then init
    else LastIndex(if evs[0].PropChange? then evs[0].newIndex else init, evs[1..])
  }

  /** True when no event of `evs` is a prop change. */
  predicate NoPropChange(evs: seq<Event>)
  {
    forall i :: 0 <= i < |evs| ==> !evs[i].PropChange?
  }

  /** The flag agrees with the shared index: `isActive` is exactly
      `activeItemIndex === index`. */
  predicate Synced(cfg: Config, st: State)
  {
    st.isActive == IndexMatches(st.activeItemIndex, cfg.index)
  }

  /** Feed `evs` to the item one at a time; the effects are concatenated in
      order. */
  function Run(cfg: Config, st: State, evs: seq<Event>): (r: Outcome)
    ensures r.0.activeItemIndex == LastIndex(st.activeItemIndex, evs)
    ensures |r.1| <= |evs|
    // without a setter the parent's index is never written
    ensures !cfg.hasSetter ==> NoSetterCall(r.1)
    // a disabled item, or one without a handler, never fires onClick
    ensures cfg.disabled || !cfg.hasOnClick ==> InvokeOnClick !in r.1
    // with a setter the flag never drifts from the shared index ...
    ensures cfg.hasSetter && Synced(cfg, st) ==> Synced(cfg, r.0)
    // ... and hovering and clicking alone never move it
    ensures cfg.hasSetter && NoPropChange(evs) ==> r.0 == st
    decreases |evs|
  {
    if |evs| == 0 then (st, [])
    else
      var (s1, e1) := Step(cfg, st, evs[0]);
      var (s2, e2) := Run(cfg, s1, evs[1..]);
      assert NoPropChange(evs) ==> NoPropChange(evs[1..]) by {
        if NoPropChange(evs) {
          forall i | 0 <= i < |evs[1..]| ensures !evs[1..][i].PropChange? {
            assert evs[1..][i] == evs[i + 1];
          }
        }
      }
      (s2, e1 + e2)
  }

  /** With a setter, a mounted item's flag, and so its "focused" class,
      always equals `activeItemIndex === index` for the last index the
      parent passed, whatever hovering and clicking happened in between. */
  lemma {:induction false} SetterModeFlagTracksSharedIndex(cfg: Config, n0: int, evs: seq<Event>)
    requires cfg.hasSetter
    ensures var st := Run(cfg, Mount(cfg, n0).0, evs).0;
            RenderClassFlags(cfg, st).focused <==> IndexMatches(LastIndex(n0, evs), cfg.index)
  {
    var m := Mount(cfg, n0).0;
    assert Synced(cfg, m);
    var st := Run(cfg, m, evs).0;
    assert Synced(cfg, st);
  }

  /** The states an item passes through, one per event. */
  function States(cfg: Config, st: State, evs: seq<Event>): (ss: seq<State>)
    ensures |ss| == |evs|
    decreases |evs|
  {
    if |evs| == 0 then []
    else
      var s1 := Step(cfg, st, evs[0]).0;
      [s1] + States(cfg, s1, evs[1..])
  }

  /** The number of false-to-true transitions of `isActive` along `ss`,
      starting from `prev`. */
  function Rises(prev: State, ss: seq<State>): nat
    decreases |ss|
  {
    if |ss| == 0 then 0
    else (if !prev.isActive && ss[0].isActive then 1 else 0) + Rises(ss[0], ss[1..])
  }

  /** The number of focus requests in `effs`. */
  function CountFocus(effs: seq<Effect>): nat
    decreases |effs|
  {
    if |effs| == 0 then 0
    else (if effs[0] == RequestFocus then 1 else 0) + CountFocus(effs[1..])
  }

  lemma {:induction false} CountFocusAppend(a: seq<Effect>, b: seq<Effect>)
    ensures CountFocus(a + b) == CountFocus(a) + CountFocus(b)
    decreases |a|
  {
    if |a| == 0 {
      assert a + b == b;
    } else {
      assert (a + b)[1..] == a[1..] + b;
      CountFocusAppend(a[1..], b);
    }
  }

  /** A sequence of at most one effect holds one focus request exactly
      when it holds RequestFocus at all. */
  lemma CountFocusSingle(effs: seq<Effect>)
    requires |effs| <= 1
    ensures CountFocus(effs) == (if RequestFocus in effs then 1 else 0)
  {
    if |effs| == 1 {
      assert effs[1..] == [];
    }
  }

  /** Focus follows activation exactly: over any run, the item requests
      focus once per false-to-true transition of `isActive` and at no other
      time, so deactivation never focuses and staying active never
      re-focuses. */
  lemma {:induction false} FocusCountIsRiseCount(cfg: Config, st: State, evs: seq<Event>)
    ensures CountFocus(Run(cfg, st, evs).1) == Rises(st, States(cfg, st, evs))
    decreases |evs|
  {
    if |evs| > 0 {
      var (s1, e1) := Step(cfg, st, evs[0]);
      var rest := Run(cfg, s1, evs[1..]).1;
      FocusCountIsRiseCount(cfg, s1, evs[1..]);
      CountFocusAppend(e1, rest);
      CountFocusSingle(e1);
      var ss := States(cfg, st, evs);
      assert ss[0] == s1 && ss[1..] == States(cfg, s1, evs[1..]);
    }
  }

  /** The activeItemIndex a parent passes back after storing the setter's
      argument in its own state: `undefined` falls back to the default
      prop, -1. */
  function ParentFeedback(arg: Option<int>): (n: int)
    ensures arg.Some? ==> n == arg.value
    ensures arg.None? ==> n == NoActiveIndex
  {
    arg.GetOr(NoActiveIndex)
  }

  /** Setter mode, closed loop: hovering emits the setter call, the parent
      feeds the index back, and the item ends up active exactly when it has
      an index of its own; a click that follows fires through the gate. */
  lemma HoverWithSetterRoundTrip(cfg: Config, st: State)
    requires cfg.hasSetter && Synced(cfg, st)
    ensures var r1 := Step(cfg, st, MouseOver);
            var s2 := Step(cfg, r1.0, PropChange(ParentFeedback(cfg.index))).0;
            && r1.1 == [CallSetter(cfg.index)]
            && (s2.isActive <==> cfg.index.Some?)
            && (Step(cfg, s2, Click).1 == [InvokeOnClick] <==>
                  cfg.hasOnClick && !cfg.disabled && cfg.index.Some?)
  {
  }

  /** Setter mode, closed loop: leaving asks for "no active item", and after
      the parent's feedback the item is inactive unless its own index is
      the sentinel -1 itself. */
  lemma LeaveWithSetterRoundTrip(cfg: Config, st: State)
    requires cfg.hasSetter && Synced(cfg, st)
    ensures var r1 := Step(cfg, st, MouseOut);
            var s2 := Step(cfg, r1.0, PropChange(ParentFeedback(Some(NoActiveIndex)))).0;
            && r1.1 == [CallSetter(Some(NoActiveIndex))]
            && (s2.isActive <==> cfg.index == Some(NoActiveIndex))
  {
  }

  /** Without a setter, a hover delivered before a click makes the click
      fire whenever the item is enabled and has a handler, whatever the
      state was before. */
  lemma HoverThenClickWithoutSetter(cfg: Config, st: State)
    requires !cfg.hasSetter
    ensures Run(cfg, st, [MouseOver, Click]).1 ==
              (if st.isActive then [] else [RequestFocus])
              + (if cfg.hasOnClick && !cfg.disabled then [InvokeOnClick] else [])
  {
    var r1 := Step(cfg, st, MouseOver);
    assert [MouseOver, Click][1..] == [Click];
    assert Run(cfg, r1.0, [Click]).1 == Step(cfg, r1.0, Click).1 + [];
  }

  /** Without a setter, a hover-set flag survives a re-render whose
      activeItemIndex did not change, and is overwritten by one that did. */
  lemma HoverFlagSurvivesUnchangedProp(cfg: Config, st: State, n: int)
    requires !cfg.hasSetter
    ensures var s1 := Step(cfg, st, MouseOver).0;
            && Step(cfg, s1, PropChange(st.activeItemIndex)).0.isActive
            && (n != st.activeItemIndex ==>
                  (Step(cfg, s1, PropChange(n)).0.isActive <==> IndexMatches(n, cfg.index)))
  {
  }
}
