/**
 The sliding panel's gesture and offset state machine, on values.

 A `Panel` holds what the component keeps between events: the cached
 position `_animatedValueY`, the two parts of its React Native
 `Animated.Value` (an offset and a value whose sum is what the value
 reports), the flick animation's state, the `visible` prop and the record
 of callbacks the panel has invoked. Every handler is a function from one
 `Panel` to the next; `Run` plays a sequence of them.

 The animated value behaves as the component relies on it:
 it reports `offset + value`; `setValue` notifies the listener with the
 reported value; `setOffset` and `flattenOffset` do not notify;
 `flattenOffset` folds the offset into the value and zeroes the offset.
 The listener is the panel's `_onDrag`.
 */
module PanelModel {
  import opened Capture

  /** The flick animation: stopped, or started with a release's velocity and position. */
  datatype Flick = Stopped | Running(velocity: real, fromValue: real)

  /** A callback the panel invoked: `onDrag(position)`, `onRequestClose()`, `onShow()`, `onHide()`. */
  datatype Event = Dragged(position: real) | CloseRequested | Shown | Hidden

  /** The props the handlers read, other than `visible`. */
  datatype Props = Props(height: real, disableDragging: bool)

  datatype Panel = Panel(
    y: real,          // the cached `_animatedValueY`
    offset: real,     // the animated value's offset
    value: real,      // the animated value's own value
    flick: Flick,
    visible: bool,    // the `visible` prop
    log: seq<Event>)  // callbacks invoked so far, oldest first

  /** What the animated value reports. */
  function Reported(p: Panel): real { p.offset + p.value }

  /** The cached position agrees with what the animated value reports. */
  predicate Synced(p: Panel) { p.y == Reported(p) }

  /** A freshly mounted panel: everything at 0, no flick, nothing invoked. */
  function Initial(visible: bool): Panel
  {
    Panel(0.0, 0.0, 0.0, Stopped, visible, [])
  }

  /** The callbacks one notification of position `v` invokes. */
  function Notification(v: real, visible: bool): seq<Event>
  {
    if v >= 0.0 && visible then [Dragged(v), CloseRequested] else [Dragged(v)]
  }

  // The animated value's operations.

  /** The listener: caches the position, reports it, and asks to close at or past 0 while visible. */
  function OnDrag(p: Panel, v: real): Panel
  {
    p.(y := v, log := p.log + Notification(v, p.visible))
  }

  function SetValue(p: Panel, v: real): Panel
  {
    OnDrag(p.(value := v), p.offset + v)
  }

  function SetOffset(p: Panel, o: real): Panel
  {
    p.(offset := o)
  }

  function FlattenOffset(p: Panel): Panel
  {
    p.(value := p.value + p.offset, offset := 0.0)
  }

  function StopFlick(p: Panel): Panel
  {
    p.(flick := Stopped)
  }

  // The pan responder's handlers.

  /**
   Granting a gesture makes the current position the offset and zeroes the
   value; the one notification this causes reports the same position, so
   the cached position does not move.
   */
  function Grant(p: Panel): (r: Panel)
    ensures r.offset == p.y && r.value == 0.0 && r.y == p.y && Synced(r)
    ensures r.flick == p.flick && r.visible == p.visible
    ensures r.log == p.log + Notification(p.y, p.visible)
  {
    SetValue(SetOffset(p, p.y), 0.0)
  }

  /**
   A move whose delta, added to the last published position, reaches the
   open bound changes nothing at all; any other move makes the delta the
   value and publishes offset plus delta.
   */
  function Move(props: Props, p: Panel, dy: real): (r: Panel)
    ensures p.y + dy <= -props.height ==> r == p
    ensures p.y + dy > -props.height ==>
      r.value == dy && r.y == p.offset + dy && Synced(r) &&
      r.offset == p.offset && r.flick == p.flick && r.visible == p.visible &&
      r.log == p.log + Notification(p.offset + dy, p.visible)
  {
    if p.y + dy <= -props.height then p else SetValue(p, dy)
  }

  /** The release guard: a release at or past the open bound that does not move towards closing is ignored. */
  predicate ReleaseIgnored(props: Props, p: Panel, dy: real)
  {
    p.y <= -props.height && dy <= 0.0
  }

  /**
   An ignored release changes nothing. Any other release folds the offset
   into the value without notifying, so the reported and cached positions
   stay where they are, and starts a flick from the cached position exactly
   when the release is faster than 0.1.
   */
  function Release(props: Props, p: Panel, dy: real, vy: real): (r: Panel)
    ensures ReleaseIgnored(props, p, dy) ==> r == p
    ensures !ReleaseIgnored(props, p, dy) ==>
      r.offset == 0.0 && r.value == p.value + p.offset && r.y == p.y &&
      r.visible == p.visible && r.log == p.log
    ensures !ReleaseIgnored(props, p, dy) ==>
      r.flick == if Abs(vy) > 0.1 then Running(vy, p.y) else p.flick
    ensures Reported(r) == Reported(p)
  {
    if ReleaseIgnored(props, p, dy) then p
    else
      var q := FlattenOffset(p);
      if Abs(vy) > 0.1 then q.(flick := Running(vy, q.y)) else q
  }

  /**
   Showing, taken as one step: the timing animation brings the value to
   `-height` (the offset stays), the listener hears the new position once,
   and `onShow` follows.
   */
  function Show(props: Props, p: Panel): (r: Panel)
    ensures r.value == -props.height && r.offset == p.offset
    ensures r.y == p.offset - props.height && Synced(r)
    ensures r.flick == p.flick && r.visible == p.visible
    ensures r.log == p.log + Notification(p.offset - props.height, p.visible) + [Shown]
  {
    var q := SetValue(p, -props.height);
    q.(log := q.log + [Shown])
  }

  /**
   Hiding, taken as one step: the timing animation brings the value to 0,
   the completion callback sets it to 0 once more (so the listener hears
   the position twice), and `onHide` follows exactly once.
   */
  function Hide(p: Panel): (r: Panel)
    ensures r.value == 0.0 && r.offset == p.offset && r.y == p.offset && Synced(r)
    ensures r.flick == p.flick && r.visible == p.visible
    ensures r.log == p.log + Notification(p.offset, p.visible) + Notification(p.offset, p.visible) + [Hidden]
  {
    var q := SetValue(SetValue(p, 0.0), 0.0);
    q.(log := q.log + [Hidden])
  }

  /** New props arrive: the panel shows itself only on a `visible` edge from false to true. */
  function ReceiveVisible(props: Props, p: Panel, next: bool): (r: Panel)
    ensures r.visible == next && r.flick == p.flick && r.offset == p.offset
    ensures next && !p.visible ==> r == Show(props, p.(visible := true))
    ensures !(next && !p.visible) ==> r == p.(visible := next)
  {
    var q := p.(visible := next);
    if next && !p.visible then Show(props, q) else q
  }

  /** The events the panel reacts to. */
  datatype Input =
    | StartCapture            // `onStartShouldSetPanResponder`
    | MoveCapture(dy: real)   // `onMoveShouldSetPanResponder`
    | GrantGesture            // `onPanResponderGrant`
    | MoveGesture(dy: real)   // `onPanResponderMove`
    | ReleaseGesture(dy: real, vy: real)  // `onPanResponderRelease`
    | TerminateGesture        // `onPanResponderTerminate`
    | VisibleProp(next: bool) // `componentWillReceiveProps` with a new `visible`
    | HidePanel               // `_onHide`, from the backdrop or the modal

  /** One event's effect on the panel. */
  function Step(props: Props, p: Panel, i: Input): (r: Panel)
    ensures Synced(p) ==> Synced(r)
    ensures p.log <= r.log
    ensures i.StartCapture? || i.MoveCapture? ==> r == StopFlick(p)
    ensures i.TerminateGesture? ==> r == p
    ensures r.flick == p.flick || r.flick == Stopped ||
            (i.ReleaseGesture? && Abs(i.vy) > 0.1 && r.flick == Running(i.vy, p.y))
    ensures !i.VisibleProp? ==> r.visible == p.visible
  {
    match i
    case StartCapture => StopFlick(p)
    case MoveCapture(_) => StopFlick(p)
    case GrantGesture => Grant(p)
    case MoveGesture(dy) => Move(props, p, dy)
    case ReleaseGesture(dy, vy) => Release(props, p, dy, vy)
    case TerminateGesture => p
    case VisibleProp(next) => ReceiveVisible(props, p, next)
    case HidePanel => Hide(p)
  }

  /** The panel after a sequence of events, oldest first. */
  function Run(props: Props, p: Panel, ins: seq<Input>): Panel
    decreases |ins|
  {
    if ins == [] then p else Run(props, Step(props, p, ins[0]), ins[1..])
  }

  // Properties of whole runs.

  /** The cached position always agrees with the animated value, from mounting on. */
  lemma {:induction false} RunSynced(props: Props, p: Panel, ins: seq<Input>)
    requires Synced(p)
    ensures Synced(Run(props, p, ins))
    decreases |ins|
  {
    if ins != [] {
      RunSynced(props, Step(props, p, ins[0]), ins[1..]);
    }
  }

  /** Callbacks are only ever appended. */
  lemma {:induction false} RunExtendsLog(props: Props, p: Panel, ins: seq<Input>)
    ensures p.log <= Run(props, p, ins).log
    decreases |ins|
  {
    if ins != [] {
      RunExtendsLog(props, Step(props, p, ins[0]), ins[1..]);
    }
  }

  /** Every close request directly follows the report of a position at or past 0. */
  ghost predicate CloseAfterClosedPosition(log: seq<Event>)
  {
    forall k :: 0 <= k < |log| && log[k] == CloseRequested ==>
      0 < k && log[k - 1].Dragged? && log[k - 1].position >= 0.0
  }

  /** From index `from` on, every report of a position at or past 0 is directly followed by a close request. */
  ghost predicate EveryClosedPositionRequestsClose(log: seq<Event>, from: nat)
  {
    forall k :: from <= k < |log| && log[k].Dragged? && log[k].position >= 0.0 ==>
      k + 1 < |log| && log[k + 1] == CloseRequested
  }

  lemma AppendNotification(log: seq<Event>, v: real, visible: bool, from: nat)
    requires CloseAfterClosedPosition(log)
    ensures CloseAfterClosedPosition(log + Notification(v, visible))
    ensures visible && from <= |log| && EveryClosedPositionRequestsClose(log, from) ==>
      EveryClosedPositionRequestsClose(log + Notification(v, visible), from)
  {
    var log' := log + Notification(v, visible);
    forall k | 0 <= k < |log'| && log'[k] == CloseRequested
      ensures 0 < k && log'[k - 1].Dragged? && log'[k - 1].position >= 0.0
    {
      if k < |log| {
        assert log'[k] == log[k] && log'[k - 1] == log[k - 1];
      } else {
        assert k == |log| + 1;
      }
    }
    if visible && from <= |log| && EveryClosedPositionRequestsClose(log, from) {
      forall k | from <= k < |log'| && log'[k].Dragged? && log'[k].position >= 0.0
        ensures k + 1 < |log'| && log'[k + 1] == CloseRequested
      {
        if k < |log| {
          assert log'[k] == log[k];
        }
      }
    }
  }

  lemma AppendCallback(log: seq<Event>, e: Event, from: nat)
    requires e == Shown || e == Hidden
    requires CloseAfterClosedPosition(log)
    ensures CloseAfterClosedPosition(log + [e])
    ensures from <= |log| && EveryClosedPositionRequestsClose(log, from) ==>
      EveryClosedPositionRequestsClose(log + [e], from)
  {
    var log' := log + [e];
    assert forall k :: 0 <= k < |log| ==> log'[k] == log[k];
  }

  /** One event keeps close requests paired with the positions that triggered them. */
  lemma StepPairsCloseRequests(props: Props, p: Panel, i: Input, from: nat)
    requires CloseAfterClosedPosition(p.log)
    ensures CloseAfterClosedPosition(Step(props, p, i).log)
    ensures p.visible && i != VisibleProp(false) && from <= |p.log| &&
            EveryClosedPositionRequestsClose(p.log, from) ==>
      EveryClosedPositionRequestsClose(Step(props, p, i).log, from)
  {
    var r := Step(props, p, i);
    match i
    case GrantGesture =>
      assert r.log == p.log + Notification(p.y, p.visible);
      AppendNotification(p.log, p.y, p.visible, from);
    case MoveGesture(dy) =>
      if p.y + dy > -props.height {
        assert r.log == p.log + Notification(p.offset + dy, p.visible);
        AppendNotification(p.log, p.offset + dy, p.visible, from);
      } else {
        assert r == p;
      }
    case HidePanel =>
      var l1 := p.log + Notification(p.offset, p.visible);
      var l2 := l1 + Notification(p.offset, p.visible);
      assert r.log == l2 + [Hidden];
      AppendNotification(p.log, p.offset, p.visible, from);
      AppendNotification(l1, p.offset, p.visible, from);
      AppendCallback(l2, Hidden, from);
    case VisibleProp(next) =>
      if next && !p.visible {
        var l1 := p.log + Notification(p.offset - props.height, true);
        assert r.log == l1 + [Shown];
        AppendNotification(p.log, p.offset - props.height, true, from);
        AppendCallback(l1, Shown, from);
      } else {
        assert r.log == p.log;
      }
    case ReleaseGesture(dy, vy) =>
      assert r.log == p.log;
    case StartCapture =>
      assert r.log == p.log;
    case MoveCapture(_) =>
      assert r.log == p.log;
    case TerminateGesture =>
      assert r.log == p.log;
  }

  /**
   `onRequestClose` fires exactly on the reports of positions at or past 0
   while the panel is visible: every close request in any run directly
   follows such a report, and while the panel stays visible every such
   report is followed by one. The request is repeated on each report; it
   is not triggered only by the crossing.
   */
  lemma {:induction false} RunPairsCloseRequests(props: Props, p: Panel, ins: seq<Input>)
    requires CloseAfterClosedPosition(p.log)
    ensures CloseAfterClosedPosition(Run(props, p, ins).log)
    ensures p.visible && (forall k :: 0 <= k < |ins| ==> ins[k] != VisibleProp(false)) ==>
      EveryClosedPositionRequestsClose(Run(props, p, ins).log, |p.log|)
    decreases |ins|
  {
    if ins != [] {
      var q := Step(props, p, ins[0]);
      StepPairsCloseRequests(props, p, ins[0], |p.log|);
      RunPairsCloseRequests(props, q, ins[1..]);
      if p.visible && (forall k :: 0 <= k < |ins| ==> ins[k] != VisibleProp(false)) {
        assert ins[0] != VisibleProp(false);
        assert forall k :: 0 <= k < |ins| - 1 ==> ins[1..][k] == ins[k + 1];
        assert EveryClosedPositionRequestsClose(p.log, |p.log|);
        assert q.visible;
        assert EveryClosedPositionRequestsClose(q.log, |p.log|);
        RunFrom(props, q, ins[1..], |p.log|);
      }
    }
  }

  /** The "while visible" half of the pairing, from any starting index already in the log. */
  lemma {:induction false} RunFrom(props: Props, p: Panel, ins: seq<Input>, from: nat)
    requires CloseAfterClosedPosition(p.log)
    requires p.visible && (forall k :: 0 <= k < |ins| ==> ins[k] != VisibleProp(false))
    requires from <= |p.log| && EveryClosedPositionRequestsClose(p.log, from)
    ensures EveryClosedPositionRequestsClose(Run(props, p, ins).log, from)
    decreases |ins|
  {
    if ins != [] {
      var q := Step(props, p, ins[0]);
      StepPairsCloseRequests(props, p, ins[0], from);
      assert forall k :: 0 <= k < |ins| - 1 ==> ins[1..][k] == ins[k + 1];
      RunFrom(props, q, ins[1..], from);
    }
  }

  /**
   Slow releases never start a flick: from a stopped flick, a run in which
   no release is faster than 0.1 ends with the flick still stopped.
   */
  lemma {:induction false} SlowReleasesNeverFlick(props: Props, p: Panel, ins: seq<Input>)
    requires p.flick == Stopped
    requires forall k :: 0 <= k < |ins| && ins[k].ReleaseGesture? ==> Abs(ins[k].vy) <= 0.1
    ensures Run(props, p, ins).flick == Stopped
    decreases |ins|
  {
    if ins != [] {
      assert forall k :: 0 <= k < |ins| - 1 ==> ins[1..][k] == ins[k + 1];
      SlowReleasesNeverFlick(props, Step(props, p, ins[0]), ins[1..]);
    }
  }

  /**
   A running flick at the end of a run was either running, unchanged,
   before it, or was started by one of its releases, faster than 0.1, whose
   velocity it carries.
   */
  lemma {:induction false} FlickComesFromRelease(props: Props, p: Panel, ins: seq<Input>)
    requires Run(props, p, ins).flick.Running?
    ensures Run(props, p, ins).flick == p.flick ||
      exists k :: 0 <= k < |ins| && ins[k].ReleaseGesture? && Abs(ins[k].vy) > 0.1 &&
                  ins[k].vy == Run(props, p, ins).flick.velocity
    decreases |ins|
  {
    if ins != [] {
      var q := Step(props, p, ins[0]);
      var f := Run(props, p, ins).flick;
      FlickComesFromRelease(props, q, ins[1..]);
      if f != q.flick {
        var k :| 0 <= k < |ins[1..]| && ins[1..][k].ReleaseGesture? && Abs(ins[1..][k].vy) > 0.1 &&
                 ins[1..][k].vy == f.velocity;
        assert ins[k + 1] == ins[1..][k];
      } else if f != p.flick {
        assert ins[0].ReleaseGesture? && Abs(ins[0].vy) > 0.1 && ins[0].vy == f.velocity;
      }
    }
  }

  /**
   During a drag, moves never touch the offset (the grant-time position),
   the flick or `visible`; the published position is either the one before
   the moves or the offset plus one of the moves' deltas.
   */
  lemma {:induction false} DragKeepsBaseline(props: Props, p: Panel, ins: seq<Input>)
    requires forall k :: 0 <= k < |ins| ==> ins[k].MoveGesture?
    ensures Run(props, p, ins).offset == p.offset
    ensures Run(props, p, ins).flick == p.flick && Run(props, p, ins).visible == p.visible
    ensures Run(props, p, ins).y == p.y ||
      exists k :: 0 <= k < |ins| && Run(props, p, ins).y == p.offset + ins[k].dy
    decreases |ins|
  {
    if ins != [] {
      var q := Step(props, p, ins[0]);
      assert forall k :: 0 <= k < |ins| - 1 ==> ins[1..][k] == ins[k + 1];
      DragKeepsBaseline(props, q, ins[1..]);
      var r := Run(props, p, ins);
      if r.y != q.y {
        var k :| 0 <= k < |ins[1..]| && r.y == q.offset + ins[1..][k].dy;
        assert r.y == p.offset + ins[k + 1].dy;
      } else if q.y != p.y {
        assert r.y == p.offset + ins[0].dy;
      }
    }
  }

  // Worked scenarios on a 500-unit panel.

  const Tall := Props(500.0, false)

  /**
   A hidden panel without offset, made visible, opens fully and then
   reports `onShow` once; an already visible panel is left alone.
   */
  lemma ShowOnVisibleEdge(p: Panel)
    requires p.offset == 0.0 && p.log == []
    ensures !p.visible ==> Step(Tall, p, VisibleProp(true)).y == -500.0
    ensures !p.visible ==> Step(Tall, p, VisibleProp(true)).log == [Dragged(-500.0), Shown]
    ensures p.visible ==> Step(Tall, p, VisibleProp(true)) == p
  {
  }

  lemma RunFirst(props: Props, p: Panel, i: Input, rest: seq<Input>)
    ensures Run(props, p, [i] + rest) == Run(props, Step(props, p, i), rest)
  {
    assert ([i] + rest)[1..] == rest;
  }

  /**
   A hidden panel is made visible, which opens it fully; it is then dragged
   down by 600 and released slowly: the move capture is granted (`dy > 1`),
   the drag publishes -400 and then 100, the release starts no flick, and
   the panel rests at 100 (past the closed bound: the release does not
   clamp it) after exactly one close request.
   */
  lemma DragOpenPanelClosed(p: Panel)
    requires p.offset == 0.0 && !p.visible && p.log == []
    ensures var r := Run(Tall, p, [VisibleProp(true), MoveCapture(600.0), GrantGesture,
                                   MoveGesture(100.0), MoveGesture(600.0), ReleaseGesture(600.0, 0.05)]);
      r.y == 100.0 && r.offset == 0.0 && r.value == 100.0 && r.flick == Stopped &&
      r.log == [Dragged(-500.0), Shown, Dragged(-500.0), Dragged(-400.0),
                Dragged(100.0), CloseRequested]
  {
    var s0 := Step(Tall, p, VisibleProp(true));
    assert s0.y == -500.0 && MoveShouldSet(false, s0.y, 500.0, 600.0);
    var s1 := Step(Tall, s0, MoveCapture(600.0));
    var s2 := Step(Tall, s1, GrantGesture);
    var s3 := Step(Tall, s2, MoveGesture(100.0));
    var s4 := Step(Tall, s3, MoveGesture(600.0));
    RunFirst(Tall, s4, ReleaseGesture(600.0, 0.05), []);
    RunFirst(Tall, s3, MoveGesture(600.0), [ReleaseGesture(600.0, 0.05)]);
    RunFirst(Tall, s2, MoveGesture(100.0), [MoveGesture(600.0), ReleaseGesture(600.0, 0.05)]);
    RunFirst(Tall, s1, GrantGesture, [MoveGesture(100.0), MoveGesture(600.0), ReleaseGesture(600.0, 0.05)]);
    RunFirst(Tall, s0, MoveCapture(600.0),
             [GrantGesture, MoveGesture(100.0), MoveGesture(600.0), ReleaseGesture(600.0, 0.05)]);
    RunFirst(Tall, p, VisibleProp(true),
             [MoveCapture(600.0), GrantGesture, MoveGesture(100.0), MoveGesture(600.0), ReleaseGesture(600.0, 0.05)]);
  }

  /** At the open bound, an opening movement is not captured and only stops the flick. */
  lemma OpeningMoveAtBoundIgnored(p: Panel)
    requires p.y == -500.0
    ensures !MoveShouldSet(false, p.y, 500.0, -50.0)
    ensures Step(Tall, p, MoveCapture(-50.0)) == p.(flick := Stopped)
  {
  }

  /**
   The move guard adds the delta to the last published position, not to
   the grant-time one: granted at -400, a move of +50 followed by a move of
   -120 passes the guard (-350 - 120 > -500) and publishes -520, past the
   open bound.
   */
  lemma MoveGuardUsesLastPosition(p: Panel)
    requires p.y == -400.0 && Synced(p)
    ensures var r := Run(Tall, p, [GrantGesture, MoveGesture(50.0), MoveGesture(-120.0)]);
      r.y == -520.0 && r.y < -Tall.height
  {
    var s1 := Step(Tall, p, GrantGesture);
    var s2 := Step(Tall, s1, MoveGesture(50.0));
    RunFirst(Tall, s2, MoveGesture(-120.0), []);
    RunFirst(Tall, s1, MoveGesture(50.0), [MoveGesture(-120.0)]);
    RunFirst(Tall, p, GrantGesture, [MoveGesture(50.0), MoveGesture(-120.0)]);
  }

  /** Every report at or past 0 while visible asks to close again, not only the first. */
  lemma CloseRequestRepeats(p: Panel)
    requires p.y == 0.0 && p.offset == 0.0 && p.visible && p.log == []
    ensures Run(Tall, p, [GrantGesture, MoveGesture(10.0), MoveGesture(20.0)]).log ==
      [Dragged(0.0), CloseRequested, Dragged(10.0), CloseRequested, Dragged(20.0), CloseRequested]
  {
    var s1 := Step(Tall, p, GrantGesture);
    var s2 := Step(Tall, s1, MoveGesture(10.0));
    RunFirst(Tall, s2, MoveGesture(20.0), []);
    RunFirst(Tall, s1, MoveGesture(10.0), [MoveGesture(20.0)]);
    RunFirst(Tall, p, GrantGesture, [MoveGesture(10.0), MoveGesture(20.0)]);
  }

  /**
   An ignored release leaves the grant-time offset in place, and hiding and
   showing are relative to it: a fully open panel granted at -500, moved
   and released towards opening (both ignored), then hidden, ends at -500
   rather than at 0, with offset -500; made invisible and visible again it
   then opens to -1000.
   */
  lemma IgnoredReleaseKeepsOffset(p: Panel)
    requires p.y == -500.0 && p.offset == 0.0 && p.value == -500.0 && p.visible
    ensures var r := Run(Tall, p, [GrantGesture, MoveGesture(-10.0), ReleaseGesture(-10.0, 0.0), HidePanel]);
      r.y == -500.0 && r.offset == -500.0 && r.value == 0.0
    ensures Run(Tall, p, [GrantGesture, MoveGesture(-10.0), ReleaseGesture(-10.0, 0.0), HidePanel,
                          VisibleProp(false), VisibleProp(true)]).y == -1000.0
  {
    var s1 := Step(Tall, p, GrantGesture);
    var s2 := Step(Tall, s1, MoveGesture(-10.0));
    var s3 := Step(Tall, s2, ReleaseGesture(-10.0, 0.0));
    var s4 := Step(Tall, s3, HidePanel);
    var s5 := Step(Tall, s4, VisibleProp(false));
    assert s2 == s1 && s3 == s1;
    RunFirst(Tall, s5, VisibleProp(true), []);
    RunFirst(Tall, s4, VisibleProp(false), [VisibleProp(true)]);
    RunFirst(Tall, s3, HidePanel, []);
    RunFirst(Tall, s3, HidePanel, [VisibleProp(false), VisibleProp(true)]);
    RunFirst(Tall, s2, ReleaseGesture(-10.0, 0.0), [HidePanel]);
    RunFirst(Tall, s2, ReleaseGesture(-10.0, 0.0), [HidePanel, VisibleProp(false), VisibleProp(true)]);
    RunFirst(Tall, s1, MoveGesture(-10.0), [ReleaseGesture(-10.0, 0.0), HidePanel]);
    RunFirst(Tall, s1, MoveGesture(-10.0), [ReleaseGesture(-10.0, 0.0), HidePanel, VisibleProp(false), VisibleProp(true)]);
    RunFirst(Tall, p, GrantGesture, [MoveGesture(-10.0), ReleaseGesture(-10.0, 0.0), HidePanel]);
    RunFirst(Tall, p, GrantGesture, [MoveGesture(-10.0), ReleaseGesture(-10.0, 0.0), HidePanel, VisibleProp(false), VisibleProp(true)]);
  }

  /**
   Hiding settles at the offset and invokes `onHide` exactly once per call;
   a second hide leaves the same state, and a hidden panel with no offset
   ends at 0 without asking to close.
   */
  lemma HideIdempotent(p: Panel)
    ensures Hide(Hide(p)).(log := Hide(p).log) == Hide(p)
    ensures p.offset == 0.0 && !p.visible ==>
      Hide(p).y == 0.0 && Hide(p).log == p.log + [Dragged(0.0), Dragged(0.0), Hidden]
  {
  }
}
