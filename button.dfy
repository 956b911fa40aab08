/** The debounced power button: a three-state machine (released, pressed,
    long-pressed) fed with pin levels and driven by three scheduler timers:
    one reports the press, one reports the long press, and one confirms a
    release after the debounce time. */
module Buttons {
  import opened CInt
  import opened Scheduler

  /** What the button reports to its owner; `LongRelease` is only ever
      reported, never a state. */
  datatype Event = Press | LongPress | Release | LongRelease

  const DEFAULT_DEBOUNCE: uint32 := 100
  const DEFAULT_LONGPRESS: uint32 := 5000

  /** The three member-function delegates `init` binds to the timers, by
      identity. */
  const ON_PRESS: Handle := 1
  const ON_RELEASE: Handle := 2
  const ON_LONGPRESS: Handle := 3

  /** How `update` reacts to a level in a state: a low level while pressed
      (re)starts the release debounce, a high level while released starts a
      press, and anything else is ignored. A bounce back high while pressed
      therefore does not cancel a pending release. */
  datatype Reaction = Ignored | ReleaseArmed | PressStarted

  function React(state: Event, level: bool): (r: Reaction)
    ensures r.ReleaseArmed? <==> state != Release && !level
    ensures r.PressStarted? <==> state == Release && level
    ensures r.Ignored? <==> (state != Release) == level
  {
    if state != Release && !level then ReleaseArmed
    else if state == Release && level then PressStarted
    else Ignored
  }

  class Button {
    var callback: Handle
    var userData: Handle
    const pressTimer: Task
    const releaseTimer: Task
    const longpressTimer: Task
    var state: Event
    var debounce: uint32
    var longpressTime: uint32
    /** The events delivered to the owner's callback, in order. */
    var reported: seq<Event>

    /** A new button is released, with a 100 ms debounce and a 5 s long
        press, and its three timers are new, unarmed tasks. */
    constructor ()
      ensures state == Release && debounce == DEFAULT_DEBOUNCE && longpressTime == DEFAULT_LONGPRESS
      ensures callback == NULL && userData == NULL && reported == []
      ensures fresh(pressTimer) && fresh(releaseTimer) && fresh(longpressTimer)
      ensures pressTimer != releaseTimer && pressTimer != longpressTimer && releaseTimer != longpressTimer
      ensures !pressTimer.enabled && !releaseTimer.enabled && !longpressTimer.enabled
    {
      callback, userData := NULL, NULL;
      pressTimer := new Task();
      releaseTimer := new Task();
      longpressTimer := new Task();
      state := Release;
      debounce, longpressTime := DEFAULT_DEBOUNCE, DEFAULT_LONGPRESS;
      reported := [];
    }

    /** The button's timers are distinct tasks of the loop and its state is
        one of the three states. */
    ghost predicate Valid(loop: Loop)
      reads this, loop`first, loop`last, loop`tasks, loop`all, loop.all`enabled, loop.all`prev, loop.all`next
    {
      && loop.Valid()
      && pressTimer in loop.all && releaseTimer in loop.all && longpressTimer in loop.all
      && pressTimer != releaseTimer && pressTimer != longpressTimer && releaseTimer != longpressTimer
      && state != LongRelease
    }

    /** `init`: stores the owner's callback and binds the timers to the
        three handlers; nothing is armed. */
    method Init(cb: Handle, data: Handle)
      requires pressTimer != releaseTimer && pressTimer != longpressTimer && releaseTimer != longpressTimer
      modifies this`callback, this`userData
      modifies pressTimer`callback, pressTimer`userData, releaseTimer`callback, releaseTimer`userData
      modifies longpressTimer`callback, longpressTimer`userData
      ensures callback == cb && userData == data
      ensures pressTimer.callback == ON_PRESS && releaseTimer.callback == ON_RELEASE && longpressTimer.callback == ON_LONGPRESS
      ensures pressTimer.userData == NULL && releaseTimer.userData == NULL && longpressTimer.userData == NULL
    {
      callback := cb;
      userData := data;
      pressTimer.Init(ON_PRESS, NULL);
      releaseTimer.Init(ON_RELEASE, NULL);
      longpressTimer.Init(ON_LONGPRESS, NULL);
    }

    /** `setTimings`: both durations are replaced. */
    method SetTimings(newDebounce: uint32, newLongpress: uint32)
      modifies this`debounce, this`longpressTime
      ensures debounce == newDebounce && longpressTime == newLongpress
    {
      debounce := newDebounce;
      longpressTime := newLongpress;
    }

    predicate IsPressed()
      reads this`state
    {
      state != Release
    }

    predicate IsShortPressed()
      reads this`state
    {
      state == Press
    }

    predicate IsLongPressed()
      reads this`state
    {
      state == LongPress
    }

    predicate IsReleased()
      reads this`state
    {
      state == Release
    }

    /** In each of the three states exactly one of the state tests holds,
        and "pressed" is "not released". */
    lemma StateTests()
      requires state != LongRelease
      ensures IsPressed() <==> !IsReleased()
      ensures IsPressed() <==> IsShortPressed() || IsLongPressed()
      ensures !(IsShortPressed() && IsLongPressed())
    {
    }

    /** `update`: a low level while pressed arms the release timer with the
        debounce time (the state stays until it fires); a high level while
        released enters PRESS, cancels a pending release, and arms the press
        timer at once and the long-press timer after the long-press time.
        Any other level leaves everything as it was. */
    method Update(loop: Loop, level: bool)
      requires Valid(loop)
      modifies this`state, loop`first, loop`last, loop`tasks, loop`changed
      modifies pressTimer, releaseTimer, longpressTimer, loop.all`prev, loop.all`next
      ensures Valid(loop) && reported == old(reported)
      ensures state == if React(old(state), level).PressStarted? then Press else old(state)
      ensures React(old(state), level).Ignored? ==>
        && loop.tasks == old(loop.tasks) && releaseTimer.Arming() == old(releaseTimer.Arming())
        && pressTimer.Arming() == old(pressTimer.Arming()) && longpressTimer.Arming() == old(longpressTimer.Arming())
      ensures React(old(state), level).ReleaseArmed? ==>
        && releaseTimer.Arming() == Timing(true, false, loop.ticks + debounce, debounce)
        && pressTimer.Arming() == old(pressTimer.Arming()) && longpressTimer.Arming() == old(longpressTimer.Arming())
      ensures React(old(state), level).PressStarted? ==>
        && !releaseTimer.enabled
        && pressTimer.Arming() == Timing(true, false, loop.ticks, 0)
        && longpressTimer.Arming() == Timing(true, false, loop.ticks + longpressTime, longpressTime)
    {
      if IsPressed() && !level {
        releaseTimer.SetTimeout(loop, debounce);
      }
      if !IsPressed() && level {
        state := Press;
        releaseTimer.Cancel(loop);
        ArmPress(loop);
      }
    }

    /** The timers a press starts: the press report at once and the long
        press after the long-press time. */
    method ArmPress(loop: Loop)
      requires Valid(loop)
      modifies loop`first, loop`last, loop`tasks, loop`changed, pressTimer, longpressTimer, loop.all`prev, loop.all`next
      ensures Valid(loop)
      ensures pressTimer.Arming() == Timing(true, false, loop.ticks, 0)
      ensures longpressTimer.Arming() == Timing(true, false, loop.ticks + longpressTime, longpressTime)
      ensures releaseTimer.Arming() == old(releaseTimer.Arming())
    {
      ghost var released := releaseTimer.Arming();
      pressTimer.SetTimeout(loop, 0);
      assert releaseTimer.Arming() == released;
      ghost var pressed := pressTimer.Arming();
      longpressTimer.SetTimeout(loop, longpressTime);
      assert pressTimer.Arming() == pressed && releaseTimer.Arming() == released;
    }

    /** `handleExti`: the pin level is the button level. */
    method HandleExti(loop: Loop, level: bool)
      requires Valid(loop)
      modifies this`state, loop`first, loop`last, loop`tasks, loop`changed
      modifies pressTimer, releaseTimer, longpressTimer, loop.all`prev, loop.all`next
      ensures Valid(loop) && reported == old(reported)
      ensures state == if React(old(state), level).PressStarted? then Press else old(state)
      ensures React(old(state), level).Ignored? ==>
        && loop.tasks == old(loop.tasks) && releaseTimer.Arming() == old(releaseTimer.Arming())
        && pressTimer.Arming() == old(pressTimer.Arming()) && longpressTimer.Arming() == old(longpressTimer.Arming())
      ensures React(old(state), level).ReleaseArmed? ==>
        && releaseTimer.Arming() == Timing(true, false, loop.ticks + debounce, debounce)
        && pressTimer.Arming() == old(pressTimer.Arming()) && longpressTimer.Arming() == old(longpressTimer.Arming())
      ensures React(old(state), level).PressStarted? ==>
        && !releaseTimer.enabled
        && pressTimer.Arming() == Timing(true, false, loop.ticks, 0)
        && longpressTimer.Arming() == Timing(true, false, loop.ticks + longpressTime, longpressTime)
    {
      Update(loop, level);
    }

    /** `handleExtiInverted`: the button pulls the pin low, so the level is
        negated. */
    method HandleExtiInverted(loop: Loop, level: bool)
      requires Valid(loop)
      modifies this`state, loop`first, loop`last, loop`tasks, loop`changed
      modifies pressTimer, releaseTimer, longpressTimer, loop.all`prev, loop.all`next
      ensures Valid(loop) && reported == old(reported)
      ensures state == if React(old(state), !level).PressStarted? then Press else old(state)
      ensures React(old(state), !level).Ignored? ==>
        && loop.tasks == old(loop.tasks) && releaseTimer.Arming() == old(releaseTimer.Arming())
        && pressTimer.Arming() == old(pressTimer.Arming()) && longpressTimer.Arming() == old(longpressTimer.Arming())
      ensures React(old(state), !level).ReleaseArmed? ==>
        && releaseTimer.Arming() == Timing(true, false, loop.ticks + debounce, debounce)
        && pressTimer.Arming() == old(pressTimer.Arming()) && longpressTimer.Arming() == old(longpressTimer.Arming())
      ensures React(old(state), !level).PressStarted? ==>
        && !releaseTimer.enabled
        && pressTimer.Arming() == Timing(true, false, loop.ticks, 0)
        && longpressTimer.Arming() == Timing(true, false, loop.ticks + longpressTime, longpressTime)
    {
      Update(loop, !level);
    }

    /** `onPress`: the press timer reports the current state. */
    method OnPress()
      modifies this`reported
      ensures reported == old(reported) + [state]
    {
      reported := reported + [state];
    }

    /** `onLongPress`: the long-press timer enters LONGPRESS and reports it. */
    method OnLongPress()
      modifies this`state, this`reported
      ensures state == LongPress && reported == old(reported) + [LongPress]
    {
      state := LongPress;
      reported := reported + [state];
    }

    /** `onRelease`: the release is confirmed; the button is released, the
        long-press timer is cancelled, and LONGRELEASE is reported after a
        long press, RELEASE otherwise. */
    method OnRelease(loop: Loop)
      requires Valid(loop)
      modifies this`state, this`reported, loop`first, loop`last, loop`tasks, loop`changed
      modifies longpressTimer, loop.all`prev, loop.all`next
      ensures Valid(loop) && state == Release && !longpressTimer.enabled
      ensures reported == old(reported) + [if old(state) == LongPress then LongRelease else Release]
      ensures pressTimer.Arming() == old(pressTimer.Arming()) && releaseTimer.Arming() == old(releaseTimer.Arming())
    {
      var wasLong := IsLongPressed();
      state := Release;
      longpressTimer.Cancel(loop);
      reported := reported + [if wasLong then LongRelease else Release];
    }
  }
}
