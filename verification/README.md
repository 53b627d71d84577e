# MenuItem active-state machine, in Dafny

This project models the behavioural core of the `MenuItem` React component
(`src/components/Menu/MenuItem/MenuItem.jsx`). A menu row tracks whether it
is the active row, asks a parent to move a shared active index when it has
a setter, requests DOM focus when it becomes active, and invokes its
`onClick` handler on click or Enter only through a gate. It also picks the
kind of icon to draw.

The component is modelled as a pure state machine:

- `Options.Option` stands for a prop that may be `undefined`.
- `MenuItem` holds the fixed props (`Config`) and the state (`State`: the
  local `isActive` flag and the last `activeItemIndex` rendered). It also
  holds the events (`PropChange`, `MouseOver`, `MouseOut`, `Click`,
  `EnterKey`) and the effects (`CallSetter`, `InvokeOnClick`,
  `RequestFocus`). `Mount` builds the first state. `Step` maps a state and
  an event to the next state and the effects emitted, with every React
  effect hook run before the next event arrives.
- `MenuItemRuns` feeds sequences of events (`Run`) and proves properties of
  whole runs. It also models a parent that stores the setter's argument
  and passes it back as `activeItemIndex` (`ParentFeedback`), which closes
  the loop in setter mode.
- `MenuItemIcon` models the choice between no icon, an SVG icon and an
  icon-font glyph.

Two behaviours of the code are easy to miss:

- `isActive` is local state in both modes. With a setter, hovering does
  not touch it. It changes only when the parent re-renders with a
  different `activeItemIndex` and the re-sync effect runs. The invariant
  "flag equals `activeItemIndex === index`" is proved to be preserved by
  every step (`MenuItemRuns.Run`); it is not recomputed on each render.
- Without a setter, the re-sync effect still runs whenever
  `activeItemIndex` changes. It overwrites a hover-set flag. A re-render
  with an unchanged `activeItemIndex` leaves that flag alone.

## Model

| member | source | states |
|---|---|---|
| `MenuItem.Mount` | src/components/Menu/MenuItem/MenuItem.jsx:43-79 | the first flag is exactly `activeItemIndex === index`; the item requests focus on mount exactly when it starts active; mounting never calls the setter or `onClick` |
| `MenuItem.SetIsActive` | src/components/Menu/MenuItem/MenuItem.jsx:77-79 | writing the flag sets it to the given value; focus is requested exactly when the flag rises from false to true; nothing else is emitted |
| `MenuItem.ResyncOnPropChange` | src/components/Menu/MenuItem/MenuItem.jsx:45-47 | an unchanged `activeItemIndex` leaves state and effects untouched; a changed one sets the flag to whether it names this item; focus only on a rise |
| `MenuItem.OnClickCallback` | src/components/Menu/MenuItem/MenuItem.jsx:49-56 | `onClick` fires exactly once when a handler exists, the item is enabled and it is active, and not at all otherwise |
| `MenuItem.SetActive` | src/components/Menu/MenuItem/MenuItem.jsx:58-64 | with a setter: exactly one call with the item's own index, and the state is untouched; without: the flag becomes true, with focus only if it was false |
| `MenuItem.SetUnActive` | src/components/Menu/MenuItem/MenuItem.jsx:66-72 | with a setter: exactly one call with -1, and the state is untouched; without: the flag becomes false, with no effect at all |
| `MenuItem.Step` | src/components/Menu/MenuItem/MenuItem.jsx:81-109 | for every event: focus exactly on a rise of the flag; the setter is called only by hovering in setter mode; in setter mode only a prop change moves state; click and Enter never change state and fire through the gate |
| `MenuItem.RenderClassFlags` | src/components/Menu/MenuItem/MenuItem.jsx:104-107 | the "focused" class is present exactly when the item is active; the "disabled" class exactly when it is disabled |
| `MenuItem.DefaultMountIsInactive` | src/components/Menu/MenuItem/MenuItem.jsx:117-127 | with no index (the default), the item mounts inactive and unfocused for every `activeItemIndex`, the default -1 included |
| `MenuItem.MouseOverIdempotent` | src/components/Menu/MenuItem/MenuItem.jsx:58-64 | without a setter, a second mouse-over changes nothing and emits nothing |
| `MenuItem.MouseOverWithSetterRepeats` | src/components/Menu/MenuItem/MenuItem.jsx:58-64 | with a setter, every mouse-over emits the same single setter call and leaves the state alone |
| `MenuItemRuns.Run` | src/components/Menu/MenuItem/MenuItem.jsx:43-109 | over any sequence of events: the remembered index is the last prop passed; no setter call without a setter; no `onClick` when disabled or without a handler; in setter mode the flag stays equal to `activeItemIndex === index`, and hovering and clicking alone never move it |
| `MenuItemRuns.SetterModeFlagTracksSharedIndex` | src/components/Menu/MenuItem/MenuItem.jsx:43-47 | with a setter, after mounting and any run, the "focused" class equals `activeItemIndex === index` for the last index the parent passed |
| `MenuItemRuns.FocusCountIsRiseCount` | src/components/Menu/MenuItem/MenuItem.jsx:77-79 | over any run, the number of focus requests equals the number of false-to-true transitions of the flag |
| `MenuItemRuns.ParentFeedback` | src/components/Menu/MenuItem/MenuItem.jsx:124 | a parent that passes back the setter's argument gives the item that index, or the default -1 when the argument was `undefined` |
| `MenuItemRuns.HoverWithSetterRoundTrip` | src/components/Menu/MenuItem/MenuItem.jsx:58-64 | setter mode: hover, then the parent's feedback, leaves the item active exactly when it has an index; a following click fires exactly when there is a handler and the item is enabled and has an index |
| `MenuItemRuns.LeaveWithSetterRoundTrip` | src/components/Menu/MenuItem/MenuItem.jsx:66-72 | setter mode: mouse-out, then the parent's feedback, leaves the item inactive unless its own index is -1 |
| `MenuItemRuns.HoverThenClickWithoutSetter` | src/components/Menu/MenuItem/MenuItem.jsx:49-64 | without a setter, hover then click focuses if the item was inactive, then fires `onClick` exactly when there is a handler and the item is enabled |
| `MenuItemRuns.HoverFlagSurvivesUnchangedProp` | src/components/Menu/MenuItem/MenuItem.jsx:45-47 | without a setter, a hover-set flag survives a re-render with the same `activeItemIndex`; a changed index overwrites it with whether that index names the item |
| `MenuItemIcon.RenderIconIfNeeded` | src/components/Menu/MenuItem/MenuItem.jsx:21-26 | no icon exactly for a missing or empty icon; an explicit type is used unchanged; otherwise a function icon is SVG and a string icon is icon font |
| `MenuItemIcon.DefaultIconRendersNothing` | src/components/Menu/MenuItem/MenuItem.jsx:120 | the default icon, the empty string, renders no icon block whatever `iconType` is |
| `MenuItemIcon.ExplicitInferredTypeAgrees` | src/components/Menu/MenuItem/MenuItem.jsx:21-26 | passing the inferred type explicitly draws the same icon as leaving it out |

## Left out

- JSX markup, the `Icon` component, the `classnames` composition and the
  `classname` and `title` props. These are presentation and library calls.
  Only the two state-dependent class flags and the icon kind are kept.
- `useEventListener` and `useKeyEvent` are not part of this model. Their
  targets and subscription lifecycle are treated as event sources. Browser
  details are not modelled either, such as `mouseout`/`mouseover` pairs
  fired when the pointer crosses into a child element; each one arrives
  as one more event.
- The DOM `.focus()` call and the `useRef` attachment. Focus is an
  emitted effect. The root element is always rendered, so the ref is
  attached whenever an effect runs, and no `refAttached` flag is modelled.
- React render batching and effect scheduling. Each event is assumed to
  run to completion, with all its effect hooks, before the next event. A
  setter call reaches the item only when the parent's re-render is fed in
  as a `PropChange`.
- Changes of the `index`, `disabled`, `onClick` and `setActiveItemIndex`
  props after mount. They are fixed in `Config`. The re-sync effect's
  dependency list names only `activeItemIndex`, so a changed `index` would
  not re-sync the flag. The source reads `setActiveItemIndex` on every
  render, so a parent that adds or drops the setter after mount switches
  the item's mode without re-syncing the flag; such a mode switch is not
  modelled.
- The event object passed to `onClick`, `NaN` indices, and unmounting.
- PropTypes validation and the static `isSelectable` flag. They are
  metadata with no behaviour.
