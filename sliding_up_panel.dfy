/**
 The `SlidingUpPanel` component as an object: the fields its handlers
 update in place, and one method per handler. Each method is proved to
 change the object exactly as the matching `PanelModel` function changes a
 `Panel` value. For the eight handler methods that `PanelModel.Step`
 mirrors, chaining their `ensures` over a sequence of calls gives the
 state `PanelModel.Run` computes for the matching inputs. `OnDrag`,
 `SetValue`, `SetOffset` and `FlattenOffset` are the animated value's
 internals, called from inside the handlers; called on their own they need
 not keep `Valid()`.
 */
module Panel {
  import opened Capture
  import opened Interpolation
  import opened PanelModel

  datatype Option<T> = None | Some(value: T)

  class SlidingUpPanel {
    // props read by the handlers; `visible` is the one the host changes
    const height: real
    const visibleHeight: real
    const disableDragging: bool
    const showBackdrop: bool
    var visible: bool

    // `_animatedValueY`, the animated value's offset and value, the flick
    var animatedValueY: real
    var offset: real
    var value: real
    var flick: Flick

    // the callbacks invoked so far, oldest first
    var events: seq<Event>

    function Config(): Props
    {
      Props(height, disableDragging)
    }

    /** The object's state as a `PanelModel` value. */
    function State(): Panel
      reads this
    {
      Panel(animatedValueY, offset, value, flick, visible, events)
    }

    /** The cached position agrees with what the animated value reports. */
    ghost predicate Valid()
      reads this
    {
      Synced(State())
    }

    /** A freshly mounted panel: position, offset and value 0, no flick, nothing invoked. */
    constructor (height: real, visibleHeight: real, disableDragging: bool, showBackdrop: bool, visible: bool)
      ensures Valid()
      ensures this.height == height && this.visibleHeight == visibleHeight
      ensures this.disableDragging == disableDragging && this.showBackdrop == showBackdrop
      ensures State() == Initial(visible)
    {
      this.height := height;
      this.visibleHeight := visibleHeight;
      this.disableDragging := disableDragging;
      this.showBackdrop := showBackdrop;
      this.visible := visible;
      animatedValueY := 0.0;
      offset := 0.0;
      value := 0.0;
      flick := Stopped;
      events := [];
    }

    // The animated value and its listener.

    /** `_onDrag`: cache the position, report it, and ask to close at or past 0 while visible. */
    method OnDrag(v: real)
      modifies this
      ensures State() == PanelModel.OnDrag(old(State()), v)
      ensures animatedValueY == v
      ensures events == old(events) + [Dragged(v)] + (if v >= 0.0 && visible then [CloseRequested] else [])
    {
      animatedValueY := v;
      events := events + [Dragged(v)];
      if animatedValueY >= 0.0 && visible {
        events := events + [CloseRequested];
      }
    }

    /** `setValue`: the listener hears offset plus the new value. */
    method SetValue(v: real)
      modifies this
      ensures State() == PanelModel.SetValue(old(State()), v)
    {
      value := v;
      OnDrag(offset + value);
    }

    /** `setOffset`: no notification. */
    method SetOffset(o: real)
      modifies this
      ensures State() == PanelModel.SetOffset(old(State()), o)
    {
      offset := o;
    }

    /** `flattenOffset`: the offset is folded into the value; no notification. */
    method FlattenOffset()
      modifies this
      ensures State() == PanelModel.FlattenOffset(old(State()))
      ensures Reported(State()) == Reported(old(State()))
    {
      value := value + offset;
      offset := 0.0;
    }

    // The pan responder's handlers.

    /** `_onStartShouldSetPanResponder`: stop the flick; capture exactly when dragging is enabled. */
    method OnStartShouldSetPanResponder() returns (capture: bool)
      requires Valid()
      modifies this
      ensures Valid()
      ensures capture == !disableDragging
      ensures State() == old(State()).(flick := Stopped)
    {
      flick := Stopped;
      capture := StartShouldSet(disableDragging);
    }

    /**
     `_onMoveShouldSetPanResponder`: stop the flick; never capture with
     dragging disabled; at or past the open bound capture only a closing
     movement beyond the dead zone, elsewhere any movement beyond it.
     */
    method OnMoveShouldSetPanResponder(dy: real) returns (capture: bool)
      requires Valid()
      modifies this
      ensures Valid()
      ensures capture == MoveShouldSet(disableDragging, animatedValueY, height, dy)
      ensures capture <==> !disableDragging && (dy > 1.0 || (dy < -1.0 && animatedValueY > -height))
      ensures State() == old(State()).(flick := Stopped)
    {
      flick := Stopped;
      if disableDragging {
        return false;
      }
      if animatedValueY <= -height {
        return dy > 1.0;
      }
      capture := Abs(dy) > 1.0;
    }

    /** `_onPanResponderGrant`: the position becomes the offset, the value 0; the position is unchanged. */
    method OnPanResponderGrant()
      requires Valid()
      modifies this
      ensures Valid()
      ensures State() == Grant(old(State()))
      ensures animatedValueY == old(animatedValueY) && offset == old(animatedValueY) && value == 0.0
    {
      SetOffset(animatedValueY);
      SetValue(0.0);
    }

    /** `_onPanResponderMove`: ignore a move reaching the open bound from the last position; else publish offset plus delta. */
    method OnPanResponderMove(dy: real)
      requires Valid()
      modifies this
      ensures Valid()
      ensures State() == Move(Config(), old(State()), dy)
      ensures old(animatedValueY) + dy <= -height ==> State() == old(State())
      ensures old(animatedValueY) + dy > -height ==> animatedValueY == old(offset) + dy && value == dy
    {
      if animatedValueY + dy <= -height {
        return;
      }
      SetValue(dy);
    }

    /**
     `_onPanResponderRelease`: ignore a release at or past the open bound
     that does not move towards closing; otherwise flatten the offset and
     start a flick from the current position when faster than 0.1.
     */
    method OnPanResponderRelease(dy: real, vy: real)
      requires Valid()
      modifies this
      ensures Valid()
      ensures State() == Release(Config(), old(State()), dy, vy)
      ensures animatedValueY == old(animatedValueY) && events == old(events)
      ensures flick != old(flick) ==>
        !ReleaseIgnored(Config(), old(State()), dy) && Abs(vy) > 0.1 &&
        flick == Running(vy, animatedValueY)
    {
      if animatedValueY <= -height && dy <= 0.0 {
        return;
      }
      FlattenOffset();
      var velocity := vy;
      if Abs(vy) > 0.1 {
        flick := Running(velocity, animatedValueY);
      }
    }

    /** `_onPanResponderTerminate`: an abandoned gesture changes nothing. */
    method OnPanResponderTerminate()
      requires Valid()
      ensures Valid()
      ensures State() == old(State())
    {
    }

    // Visibility, showing and hiding.

    /** `componentWillReceiveProps`: take the new `visible`; show only on its false-to-true edge. */
    method ComponentWillReceiveProps(nextVisible: bool)
      requires Valid()
      modifies this
      ensures Valid()
      ensures State() == ReceiveVisible(Config(), old(State()), nextVisible)
      ensures visible == nextVisible
      ensures |events| > |old(events)| <==> nextVisible && !old(visible)
    {
      var wasVisible := visible;
      visible := nextVisible;
      if nextVisible && !wasVisible {
        OnShow();
      }
    }

    /** `_onShow`, taken as one step: the value reaches `-height`, then `onShow` is invoked. */
    method OnShow()
      requires Valid()
      modifies this
      ensures Valid()
      ensures State() == Show(Config(), old(State()))
      ensures events[|events| - 1] == Shown
    {
      SetValue(-height);
      events := events + [Shown];
    }

    /**
     `_onHide`, taken as one step: the value reaches 0, the completion sets
     it to 0 again, then `onHide` is invoked.
     */
    method OnHide()
      requires Valid()
      modifies this
      ensures Valid()
      ensures State() == Hide(old(State()))
      ensures animatedValueY == offset && events[|events| - 1] == Hidden
    {
      SetValue(0.0);
      SetValue(0.0);
      events := events + [Hidden];
    }

    // The derived values.

    /** The container's translation: the reported value clamped into `[-height, 0]`. */
    function TranslateY(): (r: real)
      reads this
      requires height > 0.0
      ensures -height <= r <= 0.0
      ensures r == Clamp(offset + value, -height, 0.0)
    {
      ClampedTranslate(offset + value, height)
    }

    /** The backdrop's opacity, when a backdrop is shown: always within `[0, 0.75]`. */
    function Backdrop(): (r: Option<real>)
      reads this
      requires visibleHeight > 0.0
      ensures r.Some? <==> showBackdrop
      ensures r.Some? ==> 0.0 <= r.value <= 0.75 && r.value == BackdropOpacity(offset + value, visibleHeight)
    {
      if showBackdrop then Some(BackdropOpacity(offset + value, visibleHeight)) else None
    }
  }
}
