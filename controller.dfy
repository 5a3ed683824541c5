/**
 * The <avatar-controller> component's playback state, updated in place.
 * Every method is proved to leave the object in the state the matching
 * transition function of Playback computes, so the properties proved about
 * those functions hold of the object.
 */
module Controller {
  import opened Playback

  class AvatarController {
    /** The registry: animation name to action. */
    var actions: map<string, ActionId>
    /** The registry's key order. */
    var names: seq<string>
    /** The loop and clamp settings and clip name of every action handed out. */
    var handles: map<ActionId, Handle>
    var current: Option<ActionId>
    var loopMode: LoopMode
    /** The mixer's 'finished' listeners, oldest first. */
    var listeners: seq<Listener>
    var nextId: nat
    /** The mixer and the avatar exist. */
    var loaded: bool
    var autoplay: bool
    /** Everything done to the engine and dispatched to the host page, in order. */
    var trace: seq<Effect>

    function Model(): State
      reads this
    {
      State(actions, names, handles, current, loopMode, listeners, nextId, loaded, autoplay, trace)
    }

    constructor (autoplay: bool)
      ensures Model() == Initial(autoplay)
    {
      actions, names, handles := map[], [], map[];
      current, loopMode := None, Loop;
      listeners, nextId := [], 0;
      loaded := false;
      this.autoplay := autoplay;
      trace := [];
    }

    /**
     * The autoplay step of firstUpdated. loadModel is started before it and
     * not awaited, so at this point the registry may still be empty.
     */
    method FirstUpdated()
      requires Valid(Model())
      modifies this
      ensures Model() == if autoplay then Played(old(Model()), IDLE) else old(Model())
    {
      if autoplay {
        PlayAnimation(IDLE);
      }
    }

    /**
     * The success callback of loadModel, as far as the core sees it: the
     * avatar and its mixer now exist. The component loads its model once.
     */
    method OnModelLoaded()
      requires Valid(Model()) && !loaded
      modifies this
      ensures Valid(Model())
      ensures Model() == old(Model()).(loaded := true)
    {
      loaded := true;
    }

    /** playAnimation(name). */
    method PlayAnimation(name: string)
      requires Valid(Model())
      modifies this
      ensures Model() == Played(old(Model()), name)
    {
      var found := name in actions;
      if !found {
        return;
      }
      var action := actions[name];
      ConfigureLoop(action);
      StartAction(name, action);
      AttachFinishListener(name);
    }

    /** Applies the loop mode to `action` and crossfades to it from a different current action. */
    method ConfigureLoop(action: ActionId)
      requires Valid(Model()) && action in handles
      modifies this
      ensures Model() == Configured(old(Model()), action)
    {
      var policy := if loopMode == Loop then RepeatForever else PlayOnce;
      var clamp := loopMode == Once;
      handles := handles[action := handles[action].(loop := policy, clamp := clamp)];
      trace := trace + [SetLoop(action, policy), SetClamp(action, clamp)];
      if current.Some? && current.value != action {
        trace := trace + [CrossFadeTo(current.value, action, CROSS_FADE_SECONDS, false)];
      }
    }

    /** Dispatches animation-start, makes `action` current, then resets, fades in and plays it. */
    method StartAction(name: string, action: ActionId)
      requires Valid(Model()) && action in handles
      modifies this
      ensures Model() == Started(old(Model()), name, action)
    {
      trace := trace + [Dispatch(AnimationStart(name))];
      current := Some(action);
      trace := trace + [SetCurrent(current)];
      trace := trace + [Reset(action), FadeIn(action, FADE_IN_SECONDS), PlayAction(action)];
    }

    /** Hands the finish closure for `name` to the mixer when the name is not exempt. */
    method AttachFinishListener(name: string)
      requires Valid(Model())
      modifies this
      ensures Model() == Attached(old(Model()), name)
    {
      if !Exempt(name) && loaded {
        var l := Listener(nextId, name);
        nextId := nextId + 1;
        listeners := listeners + [l];
        trace := trace + [AddListener(l)];
      }
    }

    /** toggleLoopMode(). */
    method ToggleLoopMode()
      modifies this
      ensures Model() == Toggled(old(Model()))
    {
      loopMode := if loopMode == Loop then Once else Loop;
    }

    /** The success callback of loadAnimation(name, ...), given the action the mixer bound to the clip. */
    method OnAnimationLoaded(name: string, action: ActionId, clipName: string)
      requires Valid(Model())
      modifies this
      ensures Model() == Loaded(old(Model()), name, action, clipName)
    {
      if !loaded {
        return;
      }
      if name !in actions {
        names := names + [name];
      }
      actions := actions[name := action];
      if action !in handles {
        handles := handles[action := Handle(clipName, RepeatForever, false)];
      }
      if name == IDLE && autoplay {
        PlayAnimation(IDLE);
      }
    }

    /** Runs the onFinished closure of the pending listener at position i. */
    method OnFinished(i: nat)
      requires Valid(Model()) && i < |listeners|
      modifies this
      ensures Model() == Finished(old(Model()), old(listeners[i]))
    {
      var l := listeners[i];
      trace := trace + [Dispatch(AnimationEnd(l.name))];
      if loaded {
        listeners := Remove(listeners, l);
        trace := trace + [RemoveListener(l)];
      }
      current := None;
      trace := trace + [SetCurrent(None)];
      assert Model() == Unsubscribed(old(Model()), l);
      if !Exempt(l.name) {
        PlayAnimation(IDLE);
      }
    }

    /**
     * The mixer's 'finished' notification: it copies its listener list and
     * calls every closure of the copy in order. Each closure removes itself
     * and the idle fallback adds none, so the one to call next is always
     * at the front.
     */
    method DispatchFinished()
      requires Valid(Model())
      modifies this
      ensures Model() == RunAll(old(Model()), old(listeners))
      ensures listeners == []
    {
      var snapshot := listeners;
      var k := 0;
      while k < |snapshot|
        invariant k <= |snapshot|
        invariant Valid(old(Model())) && Model() == RunAll(old(Model()), snapshot[..k])
        invariant listeners == snapshot[k..]
      {
        RunAllStep(old(Model()), snapshot, k);
        RunAllDrains(old(Model()), snapshot, k);
        OnFinished(0);
        k := k + 1;
      }
      assert snapshot[..k] == snapshot;
    }
  }
}
