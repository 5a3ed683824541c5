# avatar-controller: a verified model of the animation orchestration core

`<avatar-controller>` is a web component that shows a rigged 3D avatar and a
panel of animation tiles. The part modelled here is its playback logic:

- the registry of named animation actions, filled by `loadAnimation`;
- `playAnimation(name)`: it sets the loop settings, crossfades from the
  previous action, dispatches `animation-start`, makes the action current,
  resets, fades in and plays it, and attaches a `finished` listener to the
  mixer;
- the `onFinished` closure: it dispatches `animation-end`, removes itself,
  clears the current action and falls back to "Standing";
- the loop-mode toggle;
- the tile state: which tile is pressed, and the icon of each tile.

The model has three layers:

- `Playback` (playback.dfy) is a pure state machine. `State` holds the
  registry (`actions`, with `names` as its key order), the loop and clamp
  settings of every action handed out, the current action, the loop mode,
  the mixer's pending `finished` closures and whether the mixer and the
  avatar exist. It also holds a log, `trace`, of every call the playback
  code makes on an action or on the mixer's listener list, every event
  dispatched to the host page and every write of the current action, in
  order. The load callback's `clipAction` call and the tiles' `getClip()`
  read are not logged: the action created by `clipAction` is a parameter of
  `Loaded`, and the clip name is kept in the action's `Handle`. Each entry point is a transition function: `Played`, `Toggled`,
  `Loaded`, `Finished`, and `RunAll` for one `finished` dispatch of the mixer.
  The invariant `Valid` is preserved by all of them.
- `Controller` (controller.dfy) has the class `AvatarController`. Its fields
  are the ones the component updates in place. Each of its methods is proved
  to leave the object in the state the matching transition function
  computes. `DispatchFinished` follows the engine's event dispatcher: it
  copies the listener list and calls each closure of the copy in order.
- `Presentation` (presentation.dfy) holds the icon table and the tile
  list. `Properties` (properties.dfy) proves the protocol's promises about
  the transition functions. They are stated through `Project`, which keeps
  the entries of the log that one `View` selects, in order.

A finish closure is modelled as a `Listener` with a fresh identity and the
name it captured. `removeEventListener` is the removal of the first entry
with that identity.

The code does not keep the pending finish listeners to one at a time. In
loop mode an action never finishes, so the closure attached by an earlier
play of a non-exempt animation stays registered. The next play of a
non-exempt animation adds a second one, and one `finished` event then runs
all of them. The model follows the code:
`Properties.ListenersAccumulate` shows the accumulation, and
`Properties.DispatchEvents` states what one dispatch then shows the host.

## Model

| member | source | states |
|---|---|---|
| Playback.Initial | src/avatar-controller.ts:22-31 | a new component has an empty registry, no current action, no pending listener, loop mode on and the given autoplay flag, and satisfies the invariant |
| Playback.Exempt | src/avatar-controller.ts:453-458 | exactly the names "Standing" and "Walk Back" attach no finish listener and make no fallback play |
| Playback.Remove | src/avatar-controller.ts:450 | removing a closure that is not registered changes nothing; removing one that is shortens the list by one; nothing new appears |
| Playback.RemoveKeepsOrder | src/avatar-controller.ts:450 | removal keeps the pending closures in attachment order and leaves no copy of the removed one |
| Playback.Configured | src/avatar-controller.ts:414-426 | the action gets setLoop(repeat, infinity) and no clamp in loop mode, or setLoop(once, 1) and clamp in once mode; a crossfade follows only from a different current action; nothing else changes |
| Playback.Started | src/avatar-controller.ts:428-438 | animation-start is dispatched, then the action becomes current, then reset, fadeIn(0.2) and play are called |
| Playback.Attached | src/avatar-controller.ts:458-460 | a closure with a fresh identity is added for a non-exempt name when the mixer exists; otherwise nothing changes |
| Playback.Played | src/avatar-controller.ts:410-463 | a name missing from the registry changes nothing, not even the log; otherwise the action becomes current, its loop settings follow the loop mode, one listener is added exactly for a non-exempt name, the effects are logged in the order configure, crossfade, start, attach, and the registry, the loop mode and the flags keep their values |
| Playback.Toggled | src/avatar-controller.ts:266-269 | the loop mode flips and nothing else changes |
| Playback.Registered | src/avatar-controller.ts:397 | the registry maps the name to the new action, a new name is appended to the key order, and an action not seen before gets the engine's default settings |
| Playback.Loaded | src/avatar-controller.ts:392-403 | without a mixer or an avatar nothing changes; otherwise the registry write takes effect and the settings of actions already handed out are kept; only "Standing" with autoplay on starts playback: the new action becomes current, gets the loop mode's settings and the log grows by exactly one play, starting from the old current action; listeners, the loop mode and the flags are unchanged |
| Playback.Unsubscribed | src/avatar-controller.ts:441-451 | the closure logs animation-end, then its own removal, then the clearing of the current action, and changes nothing else |
| Playback.Finished | src/avatar-controller.ts:441-456 | afterwards the current action is "Standing" when the name is non-exempt and "Standing" is registered, and none otherwise; the fallback play gives the "Standing" action the loop mode's loop and clamp settings and leaves every other handle as it was, and an exempt name or a missing "Standing" leaves all handles unchanged; exactly the running closure leaves the list, and it leaves from the front when it is first; the registry, the loop mode, the flags and the id counter are kept |
| Playback.Fallback | src/avatar-controller.ts:453-455 | a non-exempt name replays "Standing" when it is registered: that action becomes current and takes the loop mode's settings; an exempt name or a missing "Standing" leaves the current action and the handles as they were; the listeners, the id counter, the registry, the loop mode and the flags are kept, and the log only grows |
| Playback.SetPlayPolicy | src/avatar-controller.ts:415-421 | the played action gets the repeat policy and no clamp in loop mode, or the once policy and clamp in once mode; every other handle and every clip name stays as it was |
| Playback.RunAll | src/avatar-controller.ts:441-459 | calling the closures of a copied list one after the other keeps the invariant, the registry, the loop mode, the flags and the id counter, and only extends the log; an empty copy leaves the current action as it was, otherwise the last closure decides it: "Standing" when its name is non-exempt and "Standing" is registered, none otherwise; the same actions have handles, with their clip names unchanged |
| Playback.RunAllStep | src/avatar-controller.ts:441-459 | a run over a list one closure longer is one more finish step |
| Playback.RunAllDrains | src/avatar-controller.ts:450 | while the closures still to run are exactly the pending ones, each run removes the front one |
| Presentation.Icon | src/avatar-controller.ts:272-283 | each of the six shipped names gets its own icon; any other name gets the "Standing" icon; the result is always one of the table's icons |
| Presentation.IsActive | src/avatar-controller.ts:218 | a tile name is active iff there is a current action and its clip name is that name |
| Presentation.Tiles | src/avatar-controller.ts:217-232 | one tile per registered name, in the registry's key order, every registered name has a tile, each tile shows its name's icon, and a tile is active iff its name equals the clip name of the current action |
| Controller.AvatarController.constructor | src/avatar-controller.ts:22-31 | the object starts in the initial state |
| Controller.AvatarController.FirstUpdated | src/avatar-controller.ts:329-332 | with autoplay on the object takes the play("Standing") step, otherwise it is unchanged |
| Controller.AvatarController.OnModelLoaded | src/avatar-controller.ts:353-371 | afterwards the avatar and the mixer exist, and nothing else has changed |
| Controller.AvatarController.PlayAnimation | src/avatar-controller.ts:410-463 | the object ends in the state Played computes |
| Controller.AvatarController.ConfigureLoop | src/avatar-controller.ts:414-426 | the object ends in the state Configured computes |
| Controller.AvatarController.StartAction | src/avatar-controller.ts:428-438 | the object ends in the state Started computes |
| Controller.AvatarController.AttachFinishListener | src/avatar-controller.ts:458-460 | the object ends in the state Attached computes |
| Controller.AvatarController.ToggleLoopMode | src/avatar-controller.ts:266-269 | the object ends in the state Toggled computes |
| Controller.AvatarController.OnAnimationLoaded | src/avatar-controller.ts:392-403 | the object ends in the state Loaded computes |
| Controller.AvatarController.OnFinished | src/avatar-controller.ts:441-456 | running a pending closure leaves the object in the state Finished computes |
| Controller.AvatarController.DispatchFinished | src/avatar-controller.ts:441-459 | one finished dispatch runs every closure pending at its start, in order, ends in the state RunAll computes, and leaves no closure pending |
| Properties.PlayedTrace | src/avatar-controller.ts:410-460 | an accepted play appends exactly the configure, crossfade, start and attach effects to the log |
| Properties.PlayLogViews | src/avatar-controller.ts:410-460 | the log of one play holds one event, animation-start; the start steps are in the order emit, set current, reset, fadeIn, play; the crossfade is the only crossfade and comes before the event; at most one listener is attached |
| Properties.StartOrdering | src/__tests__/avatar-controller.test.ts:44-60 | an accepted play dispatches only animation-start with its name, then sets the current action, then calls reset, fadeIn(0.2) and play, also on a replay of the current action |
| Properties.CrossFadeOnlyOnChange | src/avatar-controller.ts:423-426 | a crossfade of 0.4 seconds without warping, from the previous action, is requested iff there is a current action different from the new one, and before animation-start |
| Properties.ListenerAttachment | src/avatar-controller.ts:458-460 | exactly one new listener is handed to the mixer for a name other than "Standing" and "Walk Back", and none for those two |
| Properties.LoopModeAppliesAtPlayTime | src/avatar-controller.ts:414-421 | after a toggle the next play applies the other loop setting to that action and to no other |
| Properties.ListenersAccumulate | src/avatar-controller.ts:458-460 | two plays of non-exempt animations with no finish in between leave two closures pending |
| Properties.FinishedTrace | src/avatar-controller.ts:441-456 | a finish logs the closure's own effects and then, for a non-exempt name with "Standing" registered, exactly the effects of playing "Standing" |
| Properties.FinishProtocol | src/avatar-controller.ts:441-456 | a finish dispatches animation-end with the captured name, removes the closure, clears the current action, then makes at most one fallback play of "Standing", which attaches no listener |
| Properties.PlayThenFinishEvents | src/avatar-controller.ts:410-459 | a play of a non-exempt name followed by its finish shows the host animation-start, animation-end and, with "Standing" registered, animation-start of "Standing" |
| Properties.PlayThenFinishState | src/avatar-controller.ts:441-456 | after the same two steps no closure of theirs is left, and the current action is "Standing" if registered and none otherwise |
| Properties.DancingThenFinish | src/avatar-controller.ts:441-456 | play("Dancing") and its finish give the event trace start Dancing, end Dancing, start Standing, leave "Standing" current and leave no listener behind |
| Properties.DancingWithoutIdle | src/__tests__/load-animation.test.ts:68-111 | with "Standing" not registered the finish of "Dancing" dispatches animation-end, removes the listener and leaves no current action |
| Properties.DispatchDrains | src/avatar-controller.ts:450 | running the first k closures of the pending list leaves exactly the rest pending |
| Properties.DispatchEvents | src/avatar-controller.ts:441-459 | one dispatch shows the host an animation-end for every pending closure, in the order they were attached, each followed by the fallback's animation-start when "Standing" is registered |
| Properties.LastWriteWins | src/avatar-controller.ts:397 | of two loads of the same name the later action is the one registered, and loading never drops a name |
| Properties.AutoplayIdle | src/avatar-controller.ts:400 | loading "Standing" with autoplay on dispatches exactly one animation-start and makes its action current |
| Properties.EarlyAutoplayIsNoOp | src/avatar-controller.ts:329-332 | the autoplay request made before any animation is registered does nothing |
| Properties.AtMostOneActiveTile | src/avatar-controller.ts:217-218 | at most one tile is active at a time |
| Properties.PlayedTileActive | src/avatar-controller.ts:218 | after play(name) exactly the tile whose name is the played action's clip name is active |
| Properties.KnownIconsDistinct | src/avatar-controller.ts:273-280 | the six shipped animations have six different icons |

## Left out

- Rendering, the renderer, camera, controls, lighting, environment and resize handling are not modelled. They touch none of the playback state.
- `requestUpdate` is left out. It only schedules a re-render, and the tile state is modelled as the function `Presentation.Tiles` of the state.
- Asset loading (the dynamic import of GLTFLoader, network fetches, loader error callbacks): a successful load is the method `OnAnimationLoaded`, given the action the mixer returned. A failed load never calls it.
- `Controller.AvatarController.OnModelLoaded` requires that no model was loaded before. The component calls loadModel once, from firstUpdated, and a second load is not modelled. An empty model URL just means the callback never runs.
- The mixer and the avatar are one flag, `loaded`. Both are set in the same synchronous callback of loadModel.
- Playback.Loaded: the action is a parameter. How `clipAction` picks or creates it is left to the engine. The model assumes only that a known action keeps its clip.
- Fade and crossfade weight math, `mixer.update` and the passing of time are not modelled. Only the calls and their arguments are.
- The engine decides when the `finished` event fires: only for a once-mode action reaching its end. `DispatchFinished` may be called in any state, so the model allows more dispatches than the engine makes.
- The event objects' `bubbles` and `composed` flags are not modelled. Events carry only their type and name.
- `disconnectedCallback` is not modelled. It only cancels the render loop and the resize handler.
- Host-page handlers of `animation-start` and `animation-end` run synchronously in the browser and could call back into the component. They are not modelled.
- Object.keys lists integer-like keys first, in numeric order. The model keeps insertion order, which matches for the six shipped names.
- Playback.Played: a name inherited from `Object.prototype` (such as "toString") counts as a registry miss in the model. In the code the lookup finds a function, and the call then fails.
- Presentation.Icon: a name inherited from `Object.prototype` gets the default icon in the model. In the code the lookup returns that function.
