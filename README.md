# SlidingUpPanel: gesture and offset state machine

This project models the core of the `SlidingUpPanel` React Native component:
a panel that slides vertically between closed (position 0) and fully open
(position `-height`). The user can drag it, fling it, or the host can open
and close it. The model covers:

- the state the component keeps between events: the cached position
  `_animatedValueY`, the `offset`/`value` pair of its `Animated.Value`, the
  flick animation's state (stopped, or started with a velocity and a start
  position), the `visible` prop, and the callbacks invoked so far (`onDrag`,
  `onRequestClose`, `onShow`, `onHide`) as a recorded event list;
- the pan responder's six handlers, the animated value's listener `_onDrag`,
  the reaction to a new `visible` prop, and showing and hiding;
- the two derived values painted by the renderer: the clamped translation
  and the backdrop opacity.

The animated value is modelled as the component relies on it. It reports
`offset + value`. `setValue` notifies the listener with the reported value.
`setOffset` and `flattenOffset` do not notify. `flattenOffset` folds the
offset into the value and sets the offset to 0.

Files and modules:

- `interpolation.dfy` (`Interpolation`): React Native's clamped linear
  interpolation, the translate and the backdrop opacity, with their lemmas.
- `capture.dfy` (`Capture`): the two capture predicates.
- `panel_model.dfy` (`PanelModel`): the state as a `Panel` value, one
  function per handler, `Step` and `Run` over sequences of events, and the
  lemmas about whole runs and worked scenarios.
- `sliding_up_panel.dfy` (`Panel`): the class `SlidingUpPanel`, whose fields
  the handlers update in place; each method is proved to change the object
  exactly as the matching `PanelModel` function changes a `Panel`. The
  lemmas about `PanelModel.Run` carry over to a sequence of calls to the
  eight handler methods that `PanelModel.Step` mirrors
  (`OnStartShouldSetPanResponder`, `OnMoveShouldSetPanResponder`,
  `OnPanResponderGrant`, `OnPanResponderMove`, `OnPanResponderRelease`,
  `OnPanResponderTerminate`, `ComponentWillReceiveProps`, `OnHide`) by
  chaining each method's `ensures`; no member states that chaining. The
  methods `OnDrag`, `SetValue`, `SetOffset` and `FlattenOffset` model the
  animated value's internals used inside the handlers; called on their own
  they need not keep `Valid()` (a lone `SetOffset(5.0)` on a new panel
  breaks it), so the run lemmas say nothing about such calls.

Behaviour the code has, kept as written:

- The move guard adds `dy` to the last published position, not to the
  position captured at grant time. A drag can therefore publish a position
  past the open bound (`MoveGuardUsesLastPosition`).
- `onRequestClose` is called on every notification of a position `>= 0`
  while visible, not once per crossing (`CloseRequestRepeats`,
  `RunPairsCloseRequests`).
- A release does not clamp: a panel dragged 600 down from fully open rests
  at 100, not at 0 (`DragOpenPanelClosed`).
- The backdrop interpolates over `visibleHeight`, not over the panel's
  `height` (`OpenShortPanelBackdrop`).
- Hiding notifies the listener twice: once when the timing animation
  reaches 0, and once when its completion calls `setValue(0)` again
  (`PanelModel.Hide`).
- Showing does not stop a running flick, and nothing in the component
  arbitrates between the flick and the show/hide animations.
- `componentWillReceiveProps` starts the show animation before React
  applies the new props, but the animation's notification comes after,
  so it sees the new `visible` (`PanelModel.ReceiveVisible` shows with
  `visible` already true).
- An ignored release (at or past the open bound with `dy <= 0`) or a
  terminated gesture skips `flattenOffset`, so the offset set at grant
  time stays. A later hide then settles at that offset rather than at 0,
  and a later show opens to the offset minus `height`: a fully open panel
  granted at -500 and released towards opening ends a hide at -500, and
  a show after that at -1000 (`IgnoredReleaseKeepsOffset`).
- The `initialPosition` prop is declared but never read. A mounted panel
  starts at 0.

## Model

| member | source | states |
|---|---|---|
| `Interpolation.Interpolate` | SlidingUpPanel.js:190-194 | a clamped interpolation returns the first output endpoint at or below the input range, the second at or above it, and always lies between the two output endpoints |
| `Interpolation.ClampedTranslate` | SlidingUpPanel.js:190-194 | interpolating `[-height, 0]` onto itself with clamping is exactly the clamp of the value into `[-height, 0]` |
| `Interpolation.TranslateInRange` | SlidingUpPanel.js:190-194 | the translate lies in `[-height, 0]`, is the identity inside that range and saturates at `-height` below it and at 0 above it |
| `Interpolation.BackdropOpacity` | SlidingUpPanel.js:176-180 | the opacity lies in `[0, 0.75]`, is 0.75 at or past `-visibleHeight`, 0 at or past 0, and `-0.75 * y / visibleHeight` in between |
| `Interpolation.OpacityNonIncreasing` | SlidingUpPanel.js:176-180 | opening the panel further never lowers the backdrop opacity |
| `Interpolation.OpenShortPanelBackdrop` | SlidingUpPanel.js:177 | a fully open panel shorter than `visibleHeight` gets opacity `0.75 * height / visibleHeight`, strictly below 0.75 |
| `Interpolation.OpacitySamples` | SlidingUpPanel.js:176-180 | over a 500-unit range the opacity is 0 at 0, 0.75 at -500 and 0.375 at -250 |
| `Capture.MoveShouldSet` | SlidingUpPanel.js:85-89 | a movement is captured iff dragging is enabled and either `dy > 1`, or `dy < -1` with the panel short of the open bound; at or past the open bound `dy <= 1` is never captured |
| `PanelModel.Grant` | SlidingUpPanel.js:93-96 | after a grant the offset is the old position, the value is 0, the position is unchanged, and the one notification reports that same position |
| `PanelModel.Move` | SlidingUpPanel.js:98-106 | a move with `position + dy <= -height` changes nothing (no write, no callback); any other sets the value to `dy` and notifies with `offset + dy` |
| `PanelModel.Release` | SlidingUpPanel.js:108-125 | a release at or past the open bound with `dy <= 0` changes nothing; any other zeroes the offset, folds it into the value, leaves the position and callbacks alone, and starts a flick from the position with velocity `vy` iff `abs(vy) > 0.1`; the reported value never changes |
| `PanelModel.Show` | SlidingUpPanel.js:140-154 | showing brings the value to `-height`, notifies once with the new position, then invokes `onShow` |
| `PanelModel.Hide` | SlidingUpPanel.js:156-169 | hiding leaves the value 0 and the position at the offset, notifies twice with it, then invokes `onHide` exactly once |
| `PanelModel.ReceiveVisible` | SlidingUpPanel.js:62-66 | the new `visible` is taken; the panel shows iff `visible` goes from false to true; otherwise nothing else changes |
| `PanelModel.Step` | SlidingUpPanel.js:73-169 | every handler keeps the position equal to the reported value, only appends callbacks, the capture handlers stop the flick, terminate changes nothing, and only a release faster than 0.1 can start a flick |
| `PanelModel.RunSynced` | SlidingUpPanel.js:93-138 | over any sequence of events the cached position stays equal to the animated value's reported value |
| `PanelModel.RunExtendsLog` | SlidingUpPanel.js:132-169 | over any sequence of events callbacks are only appended |
| `PanelModel.StepPairsCloseRequests` | SlidingUpPanel.js:132-138 | one event keeps every close request directly after a report of a position `>= 0`, and while visible keeps every such report followed by a close request |
| `PanelModel.RunPairsCloseRequests` | SlidingUpPanel.js:132-138 | over any run every `onRequestClose` directly follows an `onDrag` of a position `>= 0`; while the panel stays visible every such `onDrag` is followed by one |
| `PanelModel.RunFrom` | SlidingUpPanel.js:132-138 | the visible half of the pairing holds from any index already in the record |
| `PanelModel.SlowReleasesNeverFlick` | SlidingUpPanel.js:118-122 | from a stopped flick, a run whose releases are all no faster than 0.1 ends with the flick stopped |
| `PanelModel.FlickComesFromRelease` | SlidingUpPanel.js:108-125 | a flick running after a run was running before it, unchanged, or was started by a release of the run faster than 0.1 whose velocity it carries |
| `PanelModel.DragKeepsBaseline` | SlidingUpPanel.js:93-106 | moves never change the offset, the flick or `visible`; the position after them is the one before or the offset plus one of their deltas |
| `PanelModel.ShowOnVisibleEdge` | SlidingUpPanel.js:62-66 | a hidden panel without offset made visible ends at -500 after `onDrag(-500)` and `onShow`; a visible panel is left unchanged |
| `PanelModel.DragOpenPanelClosed` | SlidingUpPanel.js:78-138 | a panel opened to -500, dragged by 600 and released at 0.05 rests at 100 with no flick after exactly one close request |
| `PanelModel.OpeningMoveAtBoundIgnored` | SlidingUpPanel.js:78-90 | at -500 a move of -50 is not captured and only stops the flick |
| `PanelModel.MoveGuardUsesLastPosition` | SlidingUpPanel.js:98-106 | granted at -400, moves of +50 then -120 publish -520, past the open bound |
| `PanelModel.CloseRequestRepeats` | SlidingUpPanel.js:132-138 | a visible panel at 0 granted and moved by 10 and 20 asks to close three times |
| `PanelModel.IgnoredReleaseKeepsOffset` | SlidingUpPanel.js:93-169 | at -500 with no offset, a grant, an opening move and an opening release (both ignored) and a hide end at -500 with offset -500 and value 0; hiding, then showing again, opens to -1000 |
| `PanelModel.HideIdempotent` | SlidingUpPanel.js:156-169 | hiding twice leaves the same state as hiding once; a hidden panel without offset ends at 0 with no close request and one `onHide` |
| `Panel.SlidingUpPanel.constructor` | SlidingUpPanel.js:36-38 | a new panel is at 0 with offset and value 0, no flick and no callbacks |
| `Panel.SlidingUpPanel.OnDrag` | SlidingUpPanel.js:132-138 | the listener caches the position, invokes `onDrag` with it, and then `onRequestClose` iff it is `>= 0` and the panel is visible |
| `Panel.SlidingUpPanel.SetValue` | SlidingUpPanel.js:95 | `setValue` sets the value and notifies the listener with offset plus value |
| `Panel.SlidingUpPanel.SetOffset` | SlidingUpPanel.js:94 | `setOffset` sets the offset without notifying |
| `Panel.SlidingUpPanel.FlattenOffset` | SlidingUpPanel.js:116 | `flattenOffset` folds the offset into the value without notifying and keeps the reported value |
| `Panel.SlidingUpPanel.OnStartShouldSetPanResponder` | SlidingUpPanel.js:73-76 | returns exactly `!disableDragging` and leaves the flick stopped, nothing else changed |
| `Panel.SlidingUpPanel.OnMoveShouldSetPanResponder` | SlidingUpPanel.js:78-90 | stops the flick and returns the capture decision of `Capture.MoveShouldSet` for the current position |
| `Panel.SlidingUpPanel.OnPanResponderGrant` | SlidingUpPanel.js:93-96 | the object changes as `PanelModel.Grant`: offset becomes the position, value 0, position unchanged |
| `Panel.SlidingUpPanel.OnPanResponderMove` | SlidingUpPanel.js:98-106 | the object changes as `PanelModel.Move`: an ignored move changes nothing, another publishes offset plus `dy` |
| `Panel.SlidingUpPanel.OnPanResponderRelease` | SlidingUpPanel.js:108-125 | the object changes as `PanelModel.Release`; the position and callbacks stay; the flick changes only to one started with `vy` from the position, when `abs(vy) > 0.1` |
| `Panel.SlidingUpPanel.OnPanResponderTerminate` | SlidingUpPanel.js:128-130 | terminating a gesture changes nothing |
| `Panel.SlidingUpPanel.ComponentWillReceiveProps` | SlidingUpPanel.js:62-66 | the object changes as `PanelModel.ReceiveVisible`; callbacks are invoked iff `visible` goes from false to true |
| `Panel.SlidingUpPanel.OnShow` | SlidingUpPanel.js:140-154 | the object changes as `PanelModel.Show`, ending with `onShow` |
| `Panel.SlidingUpPanel.OnHide` | SlidingUpPanel.js:156-169 | the object changes as `PanelModel.Hide`, ending at the offset with `onHide` |
| `Panel.SlidingUpPanel.TranslateY` | SlidingUpPanel.js:189-194 | the rendered translation is the reported value clamped into `[-height, 0]` |
| `Panel.SlidingUpPanel.Backdrop` | SlidingUpPanel.js:171-180 | there is an opacity iff `showBackdrop`, and it is the backdrop opacity of the reported value, within `[0, 0.75]` |

Functions used inside the members above that have no row of their own,
and the row that states their behaviour:

- `PanelModel.OnDrag` (SlidingUpPanel.js:132-138): `Panel.SlidingUpPanel.OnDrag`.
- `PanelModel.SetValue` (SlidingUpPanel.js:95): `Panel.SlidingUpPanel.SetValue`.
- `PanelModel.SetOffset` (SlidingUpPanel.js:94): `Panel.SlidingUpPanel.SetOffset`.
- `PanelModel.FlattenOffset` (SlidingUpPanel.js:116): `Panel.SlidingUpPanel.FlattenOffset`.
- `PanelModel.StopFlick` (SlidingUpPanel.js:74, :79): `PanelModel.Step` and
  `Panel.SlidingUpPanel.OnStartShouldSetPanResponder` / `OnMoveShouldSetPanResponder`.
- `Capture.StartShouldSet` (SlidingUpPanel.js:75): `Panel.SlidingUpPanel.OnStartShouldSetPanResponder`.
- `PanelModel.Initial` (SlidingUpPanel.js:36-38): `Panel.SlidingUpPanel.constructor`.

## Left out

- Numbers: JavaScript's double-precision numbers are modelled as exact
  reals, so rounding is not modelled and thresholds such as the flick's
  `Math.abs(vy) > 0.1` (SlidingUpPanel.js:120) compare against the exact
  real 0.1.

- Rendering (`Modal`, views, styles, `contentStyle`, children): user interface with no logic beyond the two interpolations, which are modelled.
- Registering the pan responder and adding and removing the listener: these are calls into React Native; the handlers and the listener are called directly instead.
- The backdrop's `onPressIn` stopping the flick and its `onPress` hiding the panel, and the modal's `onRequestClose` hiding it: wiring inside the rendered tree; `OnHide` can be called directly.
- `OnShow`, `OnHide`: the 260 ms timing animations (and the Android start delay of 166.67 ms) are taken as one atomic step to their target; the intermediate frames, each a notification of the listener, are not modelled.
- The flick animation's internals (`libs/FlickAnimation` is not part of this model): only whether it runs and the `velocity` and `fromValue` it was started with are kept; its decay, its frames and its clamping at the bounds are not modelled.
- `visibleHeight` comes from `libs/layout`, which is not part of this model; it is a constructor parameter, and the opacity requires it to be positive.
- `TranslateY`, `ClampedTranslate`: require `height > 0`, since React Native's interpolation rejects a decreasing input range and a zero-length one is degenerate.
- `propTypes` and `defaultProps`: the callbacks are recorded as events, so an absent callback and the default no-op look the same; `height`, `disableDragging` and `showBackdrop` are fixed at construction, and only `visible` can change afterwards.
- Timing, concurrency and the host's touch routing: the model takes events one at a time, as React Native's single thread delivers them.
