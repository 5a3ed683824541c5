/**
 * What the playback protocol promises, stated over the transition functions
 * of Playback: the order of the steps of one play request, when a crossfade
 * is requested, when a finish listener is attached, what a finish does, and
 * how the registry write and the tiles behave.
 */
module Properties {
  import opened Playback
  import opened Presentation

  // ---------------------------------------------------------------------
  // Projections of concatenated logs
  // ---------------------------------------------------------------------

  lemma {:induction false} ProjectAppend(a: seq<Effect>, b: seq<Effect>, v: View)
    ensures Project(a + b, v) == Project(a, v) + Project(b, v)
  {
    if a == [] {
      assert a + b == b;
    } else {
      var rest := a[1..];
      assert a + b == [a[0]] + (rest + b);
      ProjectCons(a[0], rest + b, v);
      ProjectAppend(rest, b, v);
      assert a == [a[0]] + rest;
      ProjectCons(a[0], rest, v);
    }
  }

  lemma ProjectCons(e: Effect, rest: seq<Effect>, v: View)
    ensures Project([e] + rest, v) == (if Shows(v, e) then [e] else []) + Project(rest, v)
  {
    assert ([e] + rest)[1..] == rest;
  }

  /** The effects a log gained between two states. */
  function Appended(s: State, t: State): seq<Effect>
    requires |s.trace| <= |t.trace|
  {
    t.trace[|s.trace|..]
  }

  /** What a log gained over two successive stretches, through one projection. */
  lemma AppendedSplit(s: State, m: State, t: State, v: View)
    requires |s.trace| <= |m.trace| <= |t.trace|
    requires m.trace[..|s.trace|] == s.trace && t.trace[..|m.trace|] == m.trace
    ensures Project(Appended(s, t), v) == Project(Appended(s, m), v) + Project(Appended(m, t), v)
  {
    assert Appended(s, t) == Appended(s, m) + Appended(m, t);
    ProjectAppend(Appended(s, m), Appended(m, t), v);
  }

  /** The part of an accepted playAnimation call that goes to the log. */
  lemma PlayedTrace(s: State, name: string)
    requires Valid(s) && name in s.actions
    ensures Appended(s, Played(s, name)) == PlayLog(name, s.actions[name], s.loopMode, s.current, s.nextId)
  {
  }

  lemma {:induction false} ProjectNone(tr: seq<Effect>, v: View)
    requires forall i :: 0 <= i < |tr| ==> !Shows(v, tr[i])
    ensures Project(tr, v) == []
  {
    if tr != [] {
      ProjectNone(tr[1..], v);
    }
  }

  lemma {:induction false} ProjectAll(tr: seq<Effect>, v: View)
    requires forall i :: 0 <= i < |tr| ==> Shows(v, tr[i])
    ensures Project(tr, v) == tr
  {
    if tr != [] {
      ProjectAll(tr[1..], v);
      assert tr == [tr[0]] + tr[1..];
    }
  }

  lemma ConfigureViews(a: ActionId, mode: LoopMode)
    ensures Project(Configure(a, mode), Events) == []
    ensures Project(Configure(a, mode), StartSteps) == []
    ensures Project(Configure(a, mode), CrossFades) == []
    ensures Project(Configure(a, mode), Subscriptions) == []
    ensures Project(Configure(a, mode), Handoff) == []
    ensures Project(Configure(a, mode), FinishSteps) == []
  {
    forall v: View
      ensures Project(Configure(a, mode), v) == []
    {
      ProjectNone(Configure(a, mode), v);
    }
  }

  lemma TransitionViews(prev: Option<ActionId>, a: ActionId)
    ensures Project(Transition(prev, a), Events) == []
    ensures Project(Transition(prev, a), StartSteps) == []
    ensures Project(Transition(prev, a), CrossFades) == Transition(prev, a)
    ensures Project(Transition(prev, a), Subscriptions) == []
    ensures Project(Transition(prev, a), Handoff) == Transition(prev, a)
    ensures Project(Transition(prev, a), FinishSteps) == []
  {
    var tr := Transition(prev, a);
    ProjectNone(tr, Events);
    ProjectNone(tr, StartSteps);
    ProjectNone(tr, Subscriptions);
    ProjectNone(tr, FinishSteps);
    ProjectAll(tr, CrossFades);
    ProjectAll(tr, Handoff);
  }

  lemma StartViews(name: string, a: ActionId)
    ensures Project(Start(name, a), Events) == [Dispatch(AnimationStart(name))]
    ensures Project(Start(name, a), StartSteps) == Start(name, a)
    ensures Project(Start(name, a), CrossFades) == []
    ensures Project(Start(name, a), Subscriptions) == []
    ensures Project(Start(name, a), Handoff) == [Dispatch(AnimationStart(name))]
    ensures Project(Start(name, a), FinishSteps) == [Dispatch(AnimationStart(name)), SetCurrent(Some(a))]
  {
    var st := Start(name, a);
    ProjectAll(st, StartSteps);
    ProjectNone(st, CrossFades);
    ProjectNone(st, Subscriptions);
    ProjectNone(st[1..], Events);
    ProjectNone(st[1..], Handoff);
    assert st == [st[0]] + st[1..];
    ProjectCons(st[0], st[1..], Events);
    ProjectCons(st[0], st[1..], Handoff);
    StartFinishSteps(name, a);
  }

  lemma StartFinishSteps(name: string, a: ActionId)
    ensures Project(Start(name, a), FinishSteps) == [Dispatch(AnimationStart(name)), SetCurrent(Some(a))]
  {
    var st := Start(name, a);
    var rest := st[2..];
    ProjectNone(rest, FinishSteps);
    assert st[1..] == [st[1]] + rest;
    ProjectCons(st[1], rest, FinishSteps);
    assert Project(st[1..], FinishSteps) == [st[1]];
    assert st == [st[0]] + st[1..];
    ProjectCons(st[0], st[1..], FinishSteps);
  }

  lemma AttachViews(tail: seq<Effect>, l: Listener)
    requires tail == [] || tail == [AddListener(l)]
    ensures Project(tail, Events) == []
    ensures Project(tail, StartSteps) == []
    ensures Project(tail, CrossFades) == []
    ensures Project(tail, Subscriptions) == tail
    ensures Project(tail, Handoff) == []
    ensures Project(tail, FinishSteps) == []
  {
    ProjectAll(tail, Subscriptions);
    forall v: View | v != Subscriptions
      ensures Project(tail, v) == []
    {
      ProjectNone(tail, v);
    }
  }

  lemma PlayLogSplit(name: string, a: ActionId, mode: LoopMode, prev: Option<ActionId>, next: nat, v: View)
    ensures var tail := if Exempt(name) then [] else [AddListener(Listener(next, name))];
      Project(PlayLog(name, a, mode, prev, next), v)
        == Project(Configure(a, mode), v) + Project(Transition(prev, a), v)
           + Project(Start(name, a), v) + Project(tail, v)
  {
    var tail := if Exempt(name) then [] else [AddListener(Listener(next, name))];
    ProjectAppend(Configure(a, mode) + Transition(prev, a) + Start(name, a), tail, v);
    ProjectAppend(Configure(a, mode) + Transition(prev, a), Start(name, a), v);
    ProjectAppend(Configure(a, mode), Transition(prev, a), v);
  }

  /** Empty pieces of a concatenation drop out. */
  lemma Unpadded(p: seq<Effect>, q: seq<Effect>)
    ensures [] + p + q + [] == p + q
    ensures [] + [] + p + [] == p
    ensures [] + p + [] + [] == p
    ensures [] + [] + [] + p == p
  {
  }

  /** One play request's log through each projection. */
  lemma PlayLogViews(name: string, a: ActionId, mode: LoopMode, prev: Option<ActionId>, next: nat)
    ensures var log := PlayLog(name, a, mode, prev, next);
      var tail := if Exempt(name) then [] else [AddListener(Listener(next, name))];
      && Project(log, Events) == [Dispatch(AnimationStart(name))]
      && Project(log, StartSteps) == Start(name, a)
      && Project(log, CrossFades) == Transition(prev, a)
      && Project(log, Handoff) == Transition(prev, a) + [Dispatch(AnimationStart(name))]
      && Project(log, Subscriptions) == tail
      && Project(log, FinishSteps) == [Dispatch(AnimationStart(name)), SetCurrent(Some(a))]
  {
    var log := PlayLog(name, a, mode, prev, next);
    var tail := if Exempt(name) then [] else [AddListener(Listener(next, name))];
    var start := Dispatch(AnimationStart(name));
    assert Project(log, Events) == [start] by {
      ConfigureViews(a, mode);
      TransitionViews(prev, a);
      StartViews(name, a);
      AttachViews(tail, Listener(next, name));
      PlayLogSplit(name, a, mode, prev, next, Events);
      assert Project(log, Events) == [] + [] + [start] + [];
      Unpadded([start], []);
    }
    assert Project(log, StartSteps) == Start(name, a) by {
      ConfigureViews(a, mode);
      TransitionViews(prev, a);
      StartViews(name, a);
      AttachViews(tail, Listener(next, name));
      PlayLogSplit(name, a, mode, prev, next, StartSteps);
      assert Project(log, StartSteps) == [] + [] + Start(name, a) + [];
      Unpadded(Start(name, a), []);
    }
    assert Project(log, CrossFades) == Transition(prev, a) by {
      ConfigureViews(a, mode);
      TransitionViews(prev, a);
      StartViews(name, a);
      AttachViews(tail, Listener(next, name));
      PlayLogSplit(name, a, mode, prev, next, CrossFades);
      assert Project(log, CrossFades) == [] + Transition(prev, a) + [] + [];
      Unpadded(Transition(prev, a), []);
    }
    assert Project(log, Handoff) == Transition(prev, a) + [start] by {
      ConfigureViews(a, mode);
      TransitionViews(prev, a);
      StartViews(name, a);
      AttachViews(tail, Listener(next, name));
      PlayLogSplit(name, a, mode, prev, next, Handoff);
      assert Project(log, Handoff) == [] + Transition(prev, a) + [start] + [];
      Unpadded(Transition(prev, a), [start]);
    }
    assert Project(log, Subscriptions) == tail by {
      ConfigureViews(a, mode);
      TransitionViews(prev, a);
      StartViews(name, a);
      AttachViews(tail, Listener(next, name));
      PlayLogSplit(name, a, mode, prev, next, Subscriptions);
      assert Project(log, Subscriptions) == [] + [] + [] + tail;
      Unpadded(tail, []);
    }
    assert Project(log, FinishSteps) == [start, SetCurrent(Some(a))] by {
      ConfigureViews(a, mode);
      TransitionViews(prev, a);
      StartViews(name, a);
      AttachViews(tail, Listener(next, name));
      PlayLogSplit(name, a, mode, prev, next, FinishSteps);
      assert Project(log, FinishSteps) == [] + [] + [start, SetCurrent(Some(a))] + [];
      Unpadded([start, SetCurrent(Some(a))], []);
    }
  }

  // ---------------------------------------------------------------------
  // playAnimation
  // ---------------------------------------------------------------------

  /**
   * An accepted play request dispatches exactly one event, animation-start
   * with the requested name; then it sets the current action, and then it
   * calls reset, fadeIn(0.2) and play, each once and in that order. This
   * holds on a replay of the current action too.
   */
  lemma StartOrdering(s: State, name: string)
    requires Valid(s) && name in s.actions
    ensures var t := Played(s, name); var a := s.actions[name];
      && Project(Appended(s, t), Events) == [Dispatch(AnimationStart(name))]
      && Project(Appended(s, t), StartSteps)
         == [Dispatch(AnimationStart(name)), SetCurrent(Some(a)), Reset(a), FadeIn(a, FADE_IN_SECONDS), PlayAction(a)]
  {
    PlayedTrace(s, name);
    PlayLogViews(name, s.actions[name], s.loopMode, s.current, s.nextId);
  }

  /**
   * A crossfade (0.4 seconds, no warping) from the previous action is
   * requested exactly when there is a current action and it is not the one
   * being played, and it is requested before animation-start.
   */
  lemma CrossFadeOnlyOnChange(s: State, name: string)
    requires Valid(s) && name in s.actions
    ensures var t := Played(s, name); var a := s.actions[name];
      && (s.current.Some? && s.current.value != a ==>
            Project(Appended(s, t), CrossFades) == [CrossFadeTo(s.current.value, a, CROSS_FADE_SECONDS, false)])
      && (s.current == None || s.current == Some(a) ==> Project(Appended(s, t), CrossFades) == [])
      && Project(Appended(s, t), Handoff) == Project(Appended(s, t), CrossFades) + [Dispatch(AnimationStart(name))]
  {
    PlayedTrace(s, name);
    PlayLogViews(name, s.actions[name], s.loopMode, s.current, s.nextId);
  }

  /**
   * An accepted play request hands exactly one new finish listener to the
   * mixer when the name is neither "Standing" nor "Walk Back", and none
   * otherwise.
   */
  lemma ListenerAttachment(s: State, name: string)
    requires Valid(s) && name in s.actions
    ensures var t := Played(s, name);
      && (!Exempt(name) ==>
            && Project(Appended(s, t), Subscriptions) == [AddListener(Listener(s.nextId, name))]
            && |t.listeners| == |s.listeners| + 1)
      && (Exempt(name) ==> Project(Appended(s, t), Subscriptions) == [] && t.listeners == s.listeners)
  {
    PlayedTrace(s, name);
    PlayLogViews(name, s.actions[name], s.loopMode, s.current, s.nextId);
  }

  /** The loop mode is read at play time: toggling changes the settings the next play applies, and only those. */
  lemma LoopModeAppliesAtPlayTime(s: State, name: string)
    requires Valid(s) && name in s.actions
    ensures var a := s.actions[name]; var t := Played(Toggled(s), name);
      && a in t.handles
      && (s.loopMode == Loop ==> t.handles[a].loop == PlayOnce && t.handles[a].clamp)
      && (s.loopMode == Once ==> t.handles[a].loop == RepeatForever && !t.handles[a].clamp)
      && (forall b :: b in s.handles && b != a ==> b in t.handles && t.handles[b] == s.handles[b])
  {
  }

  /**
   * The code keeps no more than what it adds: a non-exempt animation played
   * in loop mode never finishes, and a second one adds a second listener.
   */
  lemma ListenersAccumulate(s: State, first: string, second: string)
    requires Valid(s) && s.listeners == []
    requires first in s.actions && second in s.actions && !Exempt(first) && !Exempt(second)
    ensures Played(Played(s, first), second).listeners
            == [Listener(s.nextId, first), Listener(s.nextId + 1, second)]
  {
    var once := Played(s, first);
    assert once.listeners == [Listener(s.nextId, first)] && once.nextId == s.nextId + 1;
  }

  // ---------------------------------------------------------------------
  // The finish closure
  // ---------------------------------------------------------------------

  /** The effects the closure's own statements append, before any fallback play. */
  function EndLog(l: Listener, loaded: bool): seq<Effect>
  {
    [Dispatch(AnimationEnd(l.name))] + (if loaded then [RemoveListener(l)] else []) + [SetCurrent(None)]
  }

  lemma UnsubscribedTrace(s: State, l: Listener)
    requires Valid(s)
    ensures Appended(s, Unsubscribed(s, l)) == EndLog(l, s.loaded)
  {
    assert Unsubscribed(s, l).trace == s.trace + EndLog(l, s.loaded);
  }

  lemma EndLogViews(l: Listener, loaded: bool)
    ensures Project(EndLog(l, loaded), Events) == [Dispatch(AnimationEnd(l.name))]
    ensures Project(EndLog(l, loaded), FinishSteps) == EndLog(l, loaded)
    ensures Project(EndLog(l, loaded), Subscriptions) == []
  {
    var log := EndLog(l, loaded);
    ProjectAll(log, FinishSteps);
    ProjectNone(log, Subscriptions);
    ProjectNone(log[1..], Events);
    assert log == [log[0]] + log[1..];
    ProjectCons(log[0], log[1..], Events);
  }

  /**
   * Running the closure of `l` dispatches animation-end for its name, then
   * removes it, then clears the current action, and then, for a non-exempt
   * name with "Standing" registered, plays "Standing" (one animation-start,
   * no new listener). So one finish causes at most one nested play.
   */
  lemma FinishProtocol(s: State, l: Listener)
    requires Valid(s)
    ensures var t := Finished(s, l);
      var fallback := !Exempt(l.name) && IDLE in s.actions;
      var removal := if s.loaded then [RemoveListener(l)] else [];
      && Project(Appended(s, t), Events)
         == [Dispatch(AnimationEnd(l.name))] + (if fallback then [Dispatch(AnimationStart(IDLE))] else [])
      && Project(Appended(s, t), FinishSteps)
         == [Dispatch(AnimationEnd(l.name))] + removal + [SetCurrent(None)]
            + (if fallback then [Dispatch(AnimationStart(IDLE)), SetCurrent(Some(s.actions[IDLE]))] else [])
      && Project(Appended(s, t), Subscriptions) == []
  {
    var end := EndLog(l, s.loaded);
    var fallback := !Exempt(l.name) && IDLE in s.actions;
    var play := if fallback then PlayLog(IDLE, s.actions[IDLE], s.loopMode, None, s.nextId) else [];
    assert Appended(s, Finished(s, l)) == end + play by {
      FinishedTrace(s, l);
    }
    EndLogViews(l, s.loaded);
    if fallback {
      PlayLogViews(IDLE, s.actions[IDLE], s.loopMode, None, s.nextId);
    } else {
      ProjectNone(play, Events);
      ProjectNone(play, FinishSteps);
      ProjectNone(play, Subscriptions);
    }
    ProjectAppend(end, play, Events);
    ProjectAppend(end, play, FinishSteps);
    ProjectAppend(end, play, Subscriptions);
  }

  /** The log of one finish: the closure's own effects, then those of the fallback play, if any. */
  lemma FinishedTrace(s: State, l: Listener)
    requires Valid(s)
    ensures Appended(s, Finished(s, l))
            == EndLog(l, s.loaded)
               + (if !Exempt(l.name) && IDLE in s.actions then PlayLog(IDLE, s.actions[IDLE], s.loopMode, None, s.nextId) else [])
  {
    var u := Unsubscribed(s, l);
    UnsubscribedTrace(s, l);
    if !Exempt(l.name) && IDLE in s.actions {
      var t := Played(u, IDLE);
      assert Finished(s, l) == t;
      PlayedTrace(u, IDLE);
      assert Appended(s, t) == Appended(s, u) + Appended(u, t);
    } else if !Exempt(l.name) {
      assert Finished(s, l) == Played(u, IDLE) == u;
    }
  }

  /**
   * A play request for a non-exempt name followed by the finish of the
   * closure it attached: the host sees animation-start, animation-end and,
   * when "Standing" is registered, animation-start of "Standing".
   */
  lemma PlayThenFinishEvents(s: State, name: string)
    requires Valid(s) && name in s.actions && !Exempt(name)
    ensures var played := Played(s, name);
      var t := Finished(played, Listener(s.nextId, name));
      Project(Appended(s, t), Events)
        == [Dispatch(AnimationStart(name))]
           + ([Dispatch(AnimationEnd(name))] + (if IDLE in s.actions then [Dispatch(AnimationStart(IDLE))] else []))
  {
    var played := Played(s, name);
    var l := Listener(s.nextId, name);
    var t := Finished(played, l);
    var fallback := if IDLE in s.actions then [Dispatch(AnimationStart(IDLE))] else [];
    assert Project(Appended(s, played), Events) == [Dispatch(AnimationStart(name))] by {
      StartOrdering(s, name);
    }
    assert played.actions == s.actions;
    assert Project(Appended(played, t), Events) == [Dispatch(AnimationEnd(name))] + fallback by {
      FinishProtocol(played, l);
    }
    assert Project(Appended(s, t), Events) == Project(Appended(s, played), Events) + Project(Appended(played, t), Events) by {
      AppendedSplit(s, played, t, Events);
    }
  }

  /**
   * After the same two steps the attached closure is gone again, and the
   * current action is "Standing" when that is registered and none otherwise.
   */
  lemma PlayThenFinishState(s: State, name: string)
    requires Valid(s) && name in s.actions && !Exempt(name)
    ensures var played := Played(s, name);
      var t := Finished(played, Listener(s.nextId, name));
      && t.listeners == s.listeners
      && t.current == (if IDLE in s.actions then Some(s.actions[IDLE]) else None)
  {
    var played := Played(s, name);
    var l := Listener(s.nextId, name);
    assert played.listeners == s.listeners + [l];
    NotPendingYet(s.listeners, s.nextId, name);
    RemoveLast(s.listeners, l);
  }

  /**
   * play("Dancing") followed by the finish of its closure: the host sees
   * animation-start, animation-end and animation-start of "Standing", and
   * "Standing" is the current action with no listener left behind.
   */
  lemma DancingThenFinish(s: State)
    requires Valid(s) && "Dancing" in s.actions && IDLE in s.actions
    ensures var played := Played(s, "Dancing");
      var t := Finished(played, Listener(s.nextId, "Dancing"));
      && Project(Appended(s, t), Events)
         == [Dispatch(AnimationStart("Dancing")), Dispatch(AnimationEnd("Dancing")), Dispatch(AnimationStart(IDLE))]
      && t.current == Some(s.actions[IDLE])
      && t.listeners == s.listeners
  {
    PlayThenFinishEvents(s, "Dancing");
    PlayThenFinishState(s, "Dancing");
    Literal3(Dispatch(AnimationStart("Dancing")), Dispatch(AnimationEnd("Dancing")), Dispatch(AnimationStart(IDLE)));
  }

  /**
   * The same with no "Standing" registered: animation-end is dispatched, the
   * listener is removed, and the component is left with no current action.
   */
  lemma DancingWithoutIdle(s: State)
    requires Valid(s) && "Dancing" in s.actions && IDLE !in s.actions
    ensures var played := Played(s, "Dancing");
      var l := Listener(s.nextId, "Dancing");
      var t := Finished(played, l);
      && Project(Appended(s, t), Events) == [Dispatch(AnimationStart("Dancing")), Dispatch(AnimationEnd("Dancing"))]
      && Project(Appended(played, t), FinishSteps)
         == [Dispatch(AnimationEnd("Dancing")), RemoveListener(l), SetCurrent(None)]
      && t.current == None
      && t.listeners == s.listeners
  {
    var played := Played(s, "Dancing");
    var l := Listener(s.nextId, "Dancing");
    PlayThenFinishEvents(s, "Dancing");
    PlayThenFinishState(s, "Dancing");
    assert played.loaded && IDLE !in played.actions;
    FinishProtocol(played, l);
    Literal2(Dispatch(AnimationStart("Dancing")), Dispatch(AnimationEnd("Dancing")));
    Literal3(Dispatch(AnimationEnd("Dancing")), RemoveListener(l), SetCurrent(None));
  }

  lemma Literal2(x: Effect, y: Effect)
    ensures [x] + ([y] + []) == [x, y]
  {
  }

  lemma Literal3(x: Effect, y: Effect, z: Effect)
    ensures [x] + ([y] + [z]) == [x, y, z]
    ensures [x] + [y] + [z] + [] == [x, y, z]
  {
  }

  lemma NotPendingYet(ls: seq<Listener>, next: nat, name: string)
    requires Pending(ls, next)
    ensures Listener(next, name) !in ls
  {
  }

  lemma {:induction false} RemoveLast(ls: seq<Listener>, l: Listener)
    requires l !in ls
    ensures Remove(ls + [l], l) == ls
  {
    if ls != [] {
      assert (ls + [l])[1..] == ls[1..] + [l];
      RemoveLast(ls[1..], l);
    } else {
      assert ls + [l] == [l];
    }
  }

  // ---------------------------------------------------------------------
  // The mixer's 'finished' dispatch
  // ---------------------------------------------------------------------

  /** Dispatching 'finished' runs every pending closure and leaves none pending. */
  lemma {:induction false} DispatchDrains(s: State, k: nat)
    requires Valid(s) && k <= |s.listeners|
    ensures RunAll(s, s.listeners[..k]).listeners == s.listeners[k..]
  {
    if k > 0 {
      DispatchDrains(s, k - 1);
      RunAllDrains(s, s.listeners, k - 1);
    } else {
      assert s.listeners[..0] == [] && s.listeners[0..] == s.listeners;
    }
  }

  /** The events a dispatch of 'finished' over `snapshot` shows the host, closure by closure. */
  function FinishEvents(snapshot: seq<Listener>, idleRegistered: bool): seq<Effect>
  {
    if snapshot == [] then []
    else
      var l := snapshot[|snapshot| - 1];
      FinishEvents(snapshot[..|snapshot| - 1], idleRegistered)
      + [Dispatch(AnimationEnd(l.name))]
      + (if !Exempt(l.name) && idleRegistered then [Dispatch(AnimationStart(IDLE))] else [])
  }

  lemma FinishEventsSnoc(snapshot: seq<Listener>, idleRegistered: bool)
    requires snapshot != []
    ensures var l := snapshot[|snapshot| - 1];
      FinishEvents(snapshot, idleRegistered)
        == FinishEvents(snapshot[..|snapshot| - 1], idleRegistered)
           + ([Dispatch(AnimationEnd(l.name))]
              + (if !Exempt(l.name) && idleRegistered then [Dispatch(AnimationStart(IDLE))] else []))
  {
  }

  /**
   * A dispatch dispatches animation-end for each closure of the snapshot, in
   * the order the closures were attached, each followed by the fallback's
   * animation-start of "Standing" when that is registered.
   */
  lemma {:induction false} DispatchEvents(s: State, snapshot: seq<Listener>)
    requires Valid(s)
    ensures Project(Appended(s, RunAll(s, snapshot)), Events) == FinishEvents(snapshot, IDLE in s.actions)
  {
    if snapshot != [] {
      var init := snapshot[..|snapshot| - 1];
      var l := snapshot[|snapshot| - 1];
      var mid := RunAll(s, init);
      var t := RunAll(s, snapshot);
      var idle := IDLE in s.actions;
      var step := [Dispatch(AnimationEnd(l.name))] + (if !Exempt(l.name) && idle then [Dispatch(AnimationStart(IDLE))] else []);
      assert t == Finished(mid, l);
      assert Project(Appended(s, mid), Events) == FinishEvents(init, idle) by {
        DispatchEvents(s, init);
      }
      assert Project(Appended(mid, t), Events) == step by {
        FinishProtocol(mid, l);
      }
      assert Project(Appended(s, t), Events) == Project(Appended(s, mid), Events) + Project(Appended(mid, t), Events) by {
        AppendedSplit(s, mid, t, Events);
      }
      FinishEventsSnoc(snapshot, idle);
    } else {
      assert Appended(s, RunAll(s, snapshot)) == [];
    }
  }

  // ---------------------------------------------------------------------
  // The registry write
  // ---------------------------------------------------------------------

  /** The last load of a name wins, and loading never drops a name. */
  lemma LastWriteWins(s: State, name: string, a: ActionId, ca: string, b: ActionId, cb: string)
    requires Valid(s) && s.loaded
    ensures var t := Loaded(Loaded(s, name, a, ca), name, b, cb);
      && t.actions == s.actions[name := b]
      && s.actions.Keys <= t.actions.Keys
  {
    var m := Loaded(s, name, a, ca);
    assert m.loaded && m.actions == s.actions[name := a];
    assert m.actions[name := b] == s.actions[name := b];
  }

  /**
   * The autoplay request of firstUpdated, made when no animation has been
   * registered yet, is a lookup miss: nothing happens, and playback starts
   * only when "Standing" is loaded.
   */
  lemma EarlyAutoplayIsNoOp(autoplay: bool)
    ensures Played(Initial(autoplay), IDLE) == Initial(autoplay)
  {
  }

  /** Loading "Standing" with autoplay on plays it: one animation-start, and it becomes current. */
  lemma AutoplayIdle(s: State, a: ActionId, clipName: string)
    requires Valid(s) && s.loaded && s.autoplay
    ensures var t := Loaded(s, IDLE, a, clipName);
      && Project(Appended(s, t), Events) == [Dispatch(AnimationStart(IDLE))]
      && t.current == Some(a)
  {
    var registered := s.(
      actions := s.actions[IDLE := a],
      names := if IDLE in s.actions then s.names else s.names + [IDLE],
      handles := if a in s.handles then s.handles else s.handles[a := Handle(clipName, RepeatForever, false)]);
    assert Loaded(s, IDLE, a, clipName) == Played(registered, IDLE);
    StartOrdering(registered, IDLE);
  }

  // ---------------------------------------------------------------------
  // Tiles
  // ---------------------------------------------------------------------

  /** Tile names are distinct, so at most one tile is pressed at a time. */
  lemma AtMostOneActiveTile(s: State)
    requires Valid(s)
    ensures var ts := Tiles(s);
      forall i, j :: 0 <= i < |ts| && 0 <= j < |ts| && ts[i].active && ts[j].active ==> i == j
  {
  }

  /** After play(name), exactly the tile named after the played action's clip is pressed. */
  lemma PlayedTileActive(s: State, name: string, tile: string)
    requires Valid(s) && name in s.actions
    ensures IsActive(Played(s, name), tile) <==> tile == s.handles[s.actions[name]].clipName
  {
  }

  /** The six shipped animations have six different icons. */
  lemma KnownIconsDistinct(m: string, n: string)
    requires m in ICONS && n in ICONS && m != n
    ensures Icon(m) != Icon(n)
  {
  }
}
