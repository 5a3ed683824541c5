/**
 * The animation orchestration core of the <avatar-controller> component as a
 * pure state machine: the registry of named actions, the current action, the
 * loop-mode policy, the mixer's pending 'finished' listeners and the log of
 * everything the component does to the engine and to the host page.
 *
 * The class in Controller updates the same state in place; each of its
 * methods is proved equal to one transition function of this module.
 */
module Playback {

  datatype Option<T> = None | Some(value: T)

  /** Identity of one engine action handle (AnimationAction); distinct handles have distinct ids. */
  type ActionId = nat

  /** The idle pose, played on start-up and as the fallback after a one-shot animation. */
  const IDLE: string := "Standing"
  /** The second steady-state animation that attaches no finish listener. */
  const WALK_BACK: string := "Walk Back"
  /** Crossfade duration from the previous action, in seconds. */
  const CROSS_FADE_SECONDS: real := 0.4
  /** Fade-in duration of the action being started, in seconds. */
  const FADE_IN_SECONDS: real := 0.2

  /** Steady-state names: playing them attaches no finish listener and they never fall back to idle. */
  predicate Exempt(name: string): (r: bool)
    ensures r <==> name in {IDLE, WALK_BACK}
  {
    name == IDLE || name == WALK_BACK
  }

  /** The component-wide loop switch. */
  datatype LoopMode = Loop | Once

  /** An action's loop setting: setLoop(LoopRepeat, Infinity) or setLoop(LoopOnce, 1). */
  datatype LoopPolicy = RepeatForever | PlayOnce

  /** What the core observes of an engine action: its clip's name and its loop and clamp settings. */
  datatype Handle = Handle(clipName: string, loop: LoopPolicy, clamp: bool)

  /** A pending 'finished' closure: a fresh identity and the animation name it captured. */
  datatype Listener = Listener(id: nat, name: string)

  /** The custom events dispatched to the host page. */
  datatype Event = AnimationStart(name: string) | AnimationEnd(name: string)

  /** One observable step of the component, in the order it happens. */
  datatype Effect =
    | SetLoop(action: ActionId, policy: LoopPolicy)
    | SetClamp(action: ActionId, clamp: bool)
    | CrossFadeTo(source: ActionId, target: ActionId, seconds: real, warp: bool)
    | Dispatch(event: Event)
    | SetCurrent(current: Option<ActionId>)
    | Reset(action: ActionId)
    | FadeIn(action: ActionId, seconds: real)
    | PlayAction(action: ActionId)
    | AddListener(listener: Listener)
    | RemoveListener(listener: Listener)

  /**
   * The component's state. `names` is the key order of the `actions` record
   * (the order its tiles are rendered in); `handles` holds every action the
   * component has ever been given, including ones a later load replaced in
   * the registry; `loaded` says that the mixer and the avatar both exist;
   * `nextId` is the identity the next finish closure gets.
   */
  datatype State = State(
    actions: map<string, ActionId>,
    names: seq<string>,
    handles: map<ActionId, Handle>,
    current: Option<ActionId>,
    loopMode: LoopMode,
    listeners: seq<Listener>,
    nextId: nat,
    loaded: bool,
    autoplay: bool,
    trace: seq<Effect>)

  predicate NoDuplicates(xs: seq<string>)
  {
    forall i, j :: 0 <= i < j < |xs| ==> xs[i] != xs[j]
  }

  /** Listener identities grow along the list: no closure is pending twice. */
  predicate Increasing(ls: seq<Listener>)
  {
    forall i, j :: 0 <= i < j < |ls| ==> ls[i].id < ls[j].id
  }

  /** Every pending closure has an identity below `next` and captured a non-exempt name. */
  predicate Pending(ls: seq<Listener>, next: nat)
  {
    && Increasing(ls)
    && forall l :: l in ls ==> l.id < next && !Exempt(l.name)
  }

  /** The invariant every reachable state keeps. */
  predicate Valid(s: State)
  {
    && (forall n :: n in s.actions ==> s.actions[n] in s.handles)
    && (s.current.Some? ==> s.current.value in s.handles)
    && NoDuplicates(s.names)
    && (forall n :: n in s.actions ==> n in s.names)
    && (forall n :: n in s.names ==> n in s.actions)
    && (s.actions != map[] ==> s.loaded)
    && (s.listeners != [] ==> s.loaded)
    && Pending(s.listeners, s.nextId)
  }

  /** A freshly constructed component: nothing loaded, loop mode on. */
  function Initial(autoplay: bool): (s: State)
    ensures Valid(s)
    ensures s.actions == map[] && s.current == None && s.listeners == [] && s.trace == []
    ensures s.loopMode == Loop && !s.loaded && s.autoplay == autoplay
  {
    State(map[], [], map[], None, Loop, [], 0, false, autoplay, [])
  }

  // ---------------------------------------------------------------------
  // Listener removal (removeEventListener: first occurrence, by identity)
  // ---------------------------------------------------------------------

  function Remove(ls: seq<Listener>, l: Listener): (r: seq<Listener>)
    ensures l !in ls ==> r == ls
    ensures l in ls ==> |r| == |ls| - 1
    ensures forall x :: x in r ==> x in ls
  {
    if ls == [] then []
    else if ls[0] == l then ls[1..]
    else [ls[0]] + Remove(ls[1..], l)
  }

  /**
   * Removing a closure from a list of distinct closures keeps the others in
   * their order and leaves no copy of it behind.
   */
  lemma {:induction false} RemoveKeepsOrder(ls: seq<Listener>, l: Listener)
    requires Increasing(ls)
    ensures Increasing(Remove(ls, l))
    ensures l !in Remove(ls, l)
  {
    if ls != [] {
      HeadBelow(ls);
      assert Increasing(ls[1..]);
      if ls[0] != l {
        var rest := Remove(ls[1..], l);
        RemoveKeepsOrder(ls[1..], l);
        ConsIncreasing(ls[0], rest);
        assert Remove(ls, l) == [ls[0]] + rest;
      }
    }
  }

  /** The head of an increasing list has the smallest identity. */
  lemma HeadBelow(ls: seq<Listener>)
    requires Increasing(ls) && ls != []
    ensures forall x :: x in ls[1..] ==> ls[0].id < x.id
  {
    forall x | x in ls[1..]
      ensures ls[0].id < x.id
    {
      var k :| 0 <= k < |ls| - 1 && ls[1..][k] == x;
      assert ls[k + 1] == x;
    }
  }

  /** A closure below every identity of an increasing list can go in front of it. */
  lemma ConsIncreasing(x: Listener, rest: seq<Listener>)
    requires Increasing(rest)
    requires forall y :: y in rest ==> x.id < y.id
    ensures Increasing([x] + rest)
  {
    var r := [x] + rest;
    forall i, j | 0 <= i < j < |r|
      ensures r[i].id < r[j].id
    {
      assert r[j] == rest[j - 1];
      if i > 0 { assert r[i] == rest[i - 1]; }
    }
  }

  // ---------------------------------------------------------------------
  // playAnimation
  // ---------------------------------------------------------------------

  function LoopFor(mode: LoopMode): LoopPolicy
  {
    if mode == Loop then RepeatForever else PlayOnce
  }

  /** setLoop and clampWhenFinished, from the loop mode at the time of the call. */
  function Configure(a: ActionId, mode: LoopMode): seq<Effect>
  {
    [SetLoop(a, LoopFor(mode)), SetClamp(a, mode == Once)]
  }

  /** The crossfade from the previous action, requested only when there is one and it differs. */
  function Transition(prev: Option<ActionId>, a: ActionId): seq<Effect>
  {
    if prev.Some? && prev.value != a then [CrossFadeTo(prev.value, a, CROSS_FADE_SECONDS, false)] else []
  }

  /** animation-start, then the new current action, then reset, fadeIn and play. */
  function Start(name: string, a: ActionId): seq<Effect>
  {
    [Dispatch(AnimationStart(name)), SetCurrent(Some(a)), Reset(a), FadeIn(a, FADE_IN_SECONDS), PlayAction(a)]
  }

  /** The effects one accepted play request appends to the log, step by step. */
  function PlayLog(name: string, a: ActionId, mode: LoopMode, prev: Option<ActionId>, next: nat): seq<Effect>
  {
    Configure(a, mode) + Transition(prev, a) + Start(name, a)
    + (if Exempt(name) then [] else [AddListener(Listener(next, name))])
  }

  /** Steps 1 to 3 of playAnimation: the loop settings of `a`, then the crossfade to it. */
  function Configured(s: State, a: ActionId): (t: State)
    requires Valid(s) && a in s.handles
    ensures Valid(t)
    ensures t == s.(handles := t.handles, trace := t.trace)
    ensures t.handles == s.handles[a := s.handles[a].(loop := LoopFor(s.loopMode), clamp := s.loopMode == Once)]
    ensures t.trace == s.trace + (Configure(a, s.loopMode) + Transition(s.current, a))
  {
    s.(handles := s.handles[a := s.handles[a].(loop := LoopFor(s.loopMode), clamp := s.loopMode == Once)],
       trace := s.trace + (Configure(a, s.loopMode) + Transition(s.current, a)))
  }

  /** Steps 4 to 6: animation-start, the new current action, reset, fadeIn, play. */
  function Started(s: State, name: string, a: ActionId): (t: State)
    requires Valid(s) && a in s.handles
    ensures Valid(t)
    ensures t == s.(current := Some(a), trace := s.trace + Start(name, a))
  {
    s.(current := Some(a), trace := s.trace + Start(name, a))
  }

  /** Step 7: the finish closure is handed to the mixer, unless the name is exempt or there is no mixer. */
  function Attached(s: State, name: string): (t: State)
    requires Valid(s)
    ensures Valid(t)
    ensures !Exempt(name) && s.loaded ==>
      var l := Listener(s.nextId, name);
      t == s.(listeners := s.listeners + [l], nextId := s.nextId + 1, trace := s.trace + [AddListener(l)])
    ensures Exempt(name) || !s.loaded ==> t == s
  {
    if !Exempt(name) && s.loaded then
      var l := Listener(s.nextId, name);
      var t := s.(listeners := s.listeners + [l], nextId := s.nextId + 1, trace := s.trace + [AddListener(l)]);
      assert Pending(t.listeners, t.nextId);
      t
    else s
  }

  /** The state after playAnimation(name). */
  function Played(s: State, name: string): (t: State)
    requires Valid(s)
    ensures Valid(t)
    // a lookup miss changes nothing, not even the log
    ensures name !in s.actions ==> t == s
    ensures name in s.actions ==>
      var a := s.actions[name];
      && t.current == Some(a)
      && (s.loopMode == Loop ==> t.handles == s.handles[a := s.handles[a].(loop := RepeatForever, clamp := false)])
      && (s.loopMode == Once ==> t.handles == s.handles[a := s.handles[a].(loop := PlayOnce, clamp := true)])
      && t.listeners == (if Exempt(name) then s.listeners else s.listeners + [Listener(s.nextId, name)])
      && t.nextId == (if Exempt(name) then s.nextId else s.nextId + 1)
      // the effects in the order playAnimation performs them
      && t.trace == s.trace + PlayLog(name, a, s.loopMode, s.current, s.nextId)
    // the registry, the loop mode and the model flags are never touched, and the log only grows
    ensures t.actions == s.actions && t.names == s.names && t.loopMode == s.loopMode
    ensures t.loaded == s.loaded && t.autoplay == s.autoplay
    ensures |s.trace| <= |t.trace| && t.trace[..|s.trace|] == s.trace
  {
    if name !in s.actions then s
    else
      var a := s.actions[name];
      var steps := Configure(a, s.loopMode) + Transition(s.current, a);
      var tail := if Exempt(name) then [] else [AddListener(Listener(s.nextId, name))];
      assert s.trace + steps + Start(name, a) == s.trace + (steps + Start(name, a));
      assert s.trace + (steps + Start(name, a)) + tail == s.trace + (steps + Start(name, a) + tail);
      Attached(Started(Configured(s, a), name, a), name)
  }

  // ---------------------------------------------------------------------
  // toggleLoopMode
  // ---------------------------------------------------------------------

  /** The state after toggleLoopMode(): only the mode changes. */
  function Toggled(s: State): (t: State)
    ensures t.loopMode != s.loopMode
    ensures t == s.(loopMode := t.loopMode)
  {
    s.(loopMode := if s.loopMode == Loop then Once else Loop)
  }

  // ---------------------------------------------------------------------
  // The success callback of loadAnimation
  // ---------------------------------------------------------------------

  /**
   * The state after the loader delivered the clip named `clipName` for `name`
   * and the mixer returned the action `a` for it. A mixer hands back an
   * existing action only for the clip it was made from, so a known action
   * keeps its handle.
   */
  function Loaded(s: State, name: string, a: ActionId, clipName: string): (t: State)
    requires Valid(s)
    ensures Valid(t)
    // no mixer or no avatar yet: the registry is left as it was
    ensures !s.loaded ==> t == s
    ensures s.loaded ==>
      && t.actions == s.actions[name := a]
      && t.names == (if name in s.actions then s.names else s.names + [name])
      && s.handles.Keys + {a} == t.handles.Keys
      && (a !in s.handles ==> t.handles[a].clipName == clipName)
      && (forall b :: b in s.handles ==> t.handles[b].clipName == s.handles[b].clipName)
    // a new action starts with the engine's defaults unless autoplay plays it at once
    ensures s.loaded && a !in s.handles && !(name == IDLE && s.autoplay) ==>
      t.handles[a] == Handle(clipName, RepeatForever, false)
    // only loading the idle animation with autoplay on starts playback
    ensures s.loaded && name == IDLE && s.autoplay ==> t.current == Some(a)
    ensures !(name == IDLE && s.autoplay) ==> t.trace == s.trace && t.current == s.current && t.listeners == s.listeners
    ensures t.listeners == s.listeners && t.loopMode == s.loopMode && t.loaded == s.loaded
    ensures t.nextId == s.nextId && t.autoplay == s.autoplay
    // the settings of every action already handed out are left alone
    ensures s.loaded && !(name == IDLE && s.autoplay) ==> t.handles == WithHandle(s.handles, a, clipName)
    // the autoplay case is one play of the new action, starting from the old current action
    ensures s.loaded && name == IDLE && s.autoplay ==>
      var h := WithHandle(s.handles, a, clipName);
      && t.handles == h[a := h[a].(loop := LoopFor(s.loopMode), clamp := s.loopMode == Once)]
      && t.trace == s.trace + PlayLog(IDLE, a, s.loopMode, s.current, s.nextId)
  {
    if !s.loaded then s
    else
      var registered := Registered(s, name, a, clipName);
      if name == IDLE && s.autoplay then Played(registered, IDLE) else registered
  }

  /** The handles after the mixer returned `a`: an action not seen before starts with the engine's defaults. */
  function WithHandle(handles: map<ActionId, Handle>, a: ActionId, clipName: string): map<ActionId, Handle>
  {
    if a in handles then handles else handles[a := Handle(clipName, RepeatForever, false)]
  }

  /** The registry write itself: `actions[name] = a`, with a handle for an action not seen before. */
  function Registered(s: State, name: string, a: ActionId, clipName: string): (t: State)
    requires Valid(s) && s.loaded
    ensures Valid(t)
    ensures t.actions == s.actions[name := a]
    ensures t.names == (if name in s.actions then s.names else s.names + [name])
    ensures t.handles == WithHandle(s.handles, a, clipName)
    ensures t == s.(actions := t.actions, names := t.names, handles := t.handles)
  {
    var t := s.(
      actions := s.actions[name := a],
      names := if name in s.actions then s.names else s.names + [name],
      handles := if a in s.handles then s.handles else s.handles[a := Handle(clipName, RepeatForever, false)]);
    assert NoDuplicates(t.names);
    t
  }

  // ---------------------------------------------------------------------
  // The onFinished closure and the mixer's 'finished' dispatch
  // ---------------------------------------------------------------------

  /** The first part of the closure `l`: animation-end, self-removal, no current action. */
  function Unsubscribed(s: State, l: Listener): (t: State)
    requires Valid(s)
    ensures Valid(t)
    ensures t.current == None && t.listeners == Remove(s.listeners, l)
    ensures t == s.(current := None, listeners := t.listeners, trace := t.trace)
    ensures t.trace == s.trace + [Dispatch(AnimationEnd(l.name))]
                     + (if s.loaded then [RemoveListener(l)] else []) + [SetCurrent(None)]
  {
    var ended := s.(trace := s.trace + [Dispatch(AnimationEnd(l.name))]);
    var removed :=
      if ended.loaded then ended.(listeners := Remove(ended.listeners, l), trace := ended.trace + [RemoveListener(l)])
      else ended;
    RemoveKeepsOrder(s.listeners, l);
    removed.(current := None, trace := removed.trace + [SetCurrent(None)])
  }

  /**
   * The state after the closure `l` ran: animation-end, the closure removes
   * itself, the current action is cleared, and a non-exempt name falls back
   * to the idle animation.
   */
  function Finished(s: State, l: Listener): (t: State)
    requires Valid(s)
    ensures Valid(t)
    ensures t.current == (if !Exempt(l.name) && IDLE in s.actions then Some(s.actions[IDLE]) else None)
    // exactly this closure leaves the list and the fallback adds none
    ensures t.listeners == Remove(s.listeners, l)
    ensures l in s.listeners ==> |t.listeners| == |s.listeners| - 1
    ensures s.listeners != [] && l == s.listeners[0] ==> t.listeners == s.listeners[1..]
    ensures t.actions == s.actions && t.names == s.names && t.loopMode == s.loopMode
    ensures t.loaded == s.loaded && t.autoplay == s.autoplay && t.nextId == s.nextId
    // the fallback play applies the loop mode to the idle action and touches no other handle
    ensures !Exempt(l.name) && IDLE in s.actions ==> t.handles == SetPlayPolicy(s.handles, s.actions[IDLE], s.loopMode)
    ensures Exempt(l.name) || IDLE !in s.actions ==> t.handles == s.handles
    ensures t.handles.Keys == s.handles.Keys
    ensures forall b :: b in s.handles ==> t.handles[b].clipName == s.handles[b].clipName
    ensures |s.trace| <= |t.trace| && t.trace[..|s.trace|] == s.trace
  {
    Fallback(Unsubscribed(s, l), l.name)
  }

  /** The last step of the closure for `name`: a non-exempt name plays the idle animation. */
  function Fallback(s: State, name: string): (t: State)
    requires Valid(s)
    ensures Valid(t)
    ensures t.current == (if !Exempt(name) && IDLE in s.actions then Some(s.actions[IDLE]) else s.current)
    ensures t.listeners == s.listeners && t.nextId == s.nextId
    ensures t.actions == s.actions && t.names == s.names && t.loopMode == s.loopMode
    ensures t.loaded == s.loaded && t.autoplay == s.autoplay
    ensures !Exempt(name) && IDLE in s.actions ==> t.handles == SetPlayPolicy(s.handles, s.actions[IDLE], s.loopMode)
    ensures Exempt(name) || IDLE !in s.actions ==> t.handles == s.handles
    ensures |s.trace| <= |t.trace| && t.trace[..|s.trace|] == s.trace
  {
    if !Exempt(name) then Played(s, IDLE) else s
  }

  /** The handles after a play of `a` applies the loop mode's settings to it. */
  function SetPlayPolicy(h: map<ActionId, Handle>, a: ActionId, mode: LoopMode): (r: map<ActionId, Handle>)
    requires a in h
    // the handed-out actions and their clip names stay; only a's loop settings follow the mode
    ensures r.Keys == h.Keys
    ensures forall b :: b in h ==> r[b].clipName == h[b].clipName
    ensures r[a].loop == LoopFor(mode) && r[a].clamp == (mode == Once)
    ensures forall b :: b in h && b != a ==> r[b] == h[b]
  {
    h[a := h[a].(loop := LoopFor(mode), clamp := mode == Once)]
  }

  /**
   * The state after the mixer called the closures of `snapshot` one after the
   * other (it copies its listener list before it calls them).
   */
  function RunAll(s: State, snapshot: seq<Listener>): (t: State)
    requires Valid(s)
    ensures Valid(t)
    // the last closure decides the current action: idle after a non-exempt name, none otherwise
    ensures t.current == if snapshot == [] then s.current
                         else if !Exempt(snapshot[|snapshot| - 1].name) && IDLE in s.actions then Some(s.actions[IDLE])
                         else None
    ensures t.actions == s.actions && t.names == s.names && t.loopMode == s.loopMode
    ensures t.loaded == s.loaded && t.autoplay == s.autoplay && t.nextId == s.nextId
    // handles only have their loop settings rewritten
    ensures t.handles.Keys == s.handles.Keys
    ensures forall b :: b in s.handles ==> t.handles[b].clipName == s.handles[b].clipName
    ensures |s.trace| <= |t.trace| && t.trace[..|s.trace|] == s.trace
    decreases |snapshot|
  {
    if snapshot == [] then s
    else
      var prev := RunAll(s, snapshot[..|snapshot| - 1]);
      Finished(prev, snapshot[|snapshot| - 1])
  }

  /** Running a prefix one closure longer adds one Finished step. */
  lemma RunAllStep(s: State, snapshot: seq<Listener>, k: nat)
    requires Valid(s) && k < |snapshot|
    ensures RunAll(s, snapshot[..k + 1]) == Finished(RunAll(s, snapshot[..k]), snapshot[k])
  {
    var run := snapshot[..k + 1];
    assert run[..|run| - 1] == snapshot[..k];
  }

  /**
   * While the closures still to run are exactly the pending ones, running the
   * next one removes it from the front of the list.
   */
  lemma RunAllDrains(s: State, snapshot: seq<Listener>, k: nat)
    requires Valid(s) && k < |snapshot|
    requires RunAll(s, snapshot[..k]).listeners == snapshot[k..]
    ensures RunAll(s, snapshot[..k + 1]).listeners == snapshot[k + 1..]
  {
    RunAllStep(s, snapshot, k);
    var prev := RunAll(s, snapshot[..k]);
    assert prev.listeners != [] && prev.listeners[0] == snapshot[k];
    assert Finished(prev, snapshot[k]).listeners == prev.listeners[1..];
  }

  // ---------------------------------------------------------------------
  // Projections of the log
  // ---------------------------------------------------------------------

  /** The ways the log is looked at: each selects some kinds of effect and keeps their order. */
  datatype View =
    | Events        // what a host page listening for animation-start and animation-end sees
    | CrossFades    // crossfade requests
    | Subscriptions // listeners handed to the mixer
    | Handoff       // crossfade requests and events
    | StartSteps    // events, current-action writes, reset, fadeIn and play
    | FinishSteps   // events, listener removals and current-action writes

  predicate Shows(v: View, e: Effect)
  {
    match v
    case Events => e.Dispatch?
    case CrossFades => e.CrossFadeTo?
    case Subscriptions => e.AddListener?
    case Handoff => e.CrossFadeTo? || e.Dispatch?
    case StartSteps => e.Dispatch? || e.SetCurrent? || e.Reset? || e.FadeIn? || e.PlayAction?
    case FinishSteps => e.Dispatch? || e.RemoveListener? || e.SetCurrent?
  }

  /** The effects of `tr` that `v` shows, in order. */
  function Project(tr: seq<Effect>, v: View): (r: seq<Effect>)
    ensures |r| <= |tr|
  {
    if tr == [] then []
    else (if Shows(v, tr[0]) then [tr[0]] else []) + Project(tr[1..], v)
  }
}
