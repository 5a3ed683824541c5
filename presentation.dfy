/**
 * The two pure pieces of the component's rendering: the icon chosen for an
 * animation tile and whether a tile is shown as the active one.
 */
module Presentation {
  import opened Playback

  const DEFAULT_ICON: string := "/icons/standing.png"

  /** The icon table of the six animations the component ships with. */
  const ICONS: map<string, string> := map[
    "Standing" := "/icons/standing.png",
    "Dancing" := "/icons/dancing.png",
    "Walk Back" := "/icons/walking-back.png",
    "Stretching" := "/icons/stretching.png",
    "Back Flip" := "/icons/back-flip.png",
    "Crouch" := "/icons/crouch.png"]

  /** The icon of a tile: the table's entry, or the idle icon for any other name. */
  function Icon(name: string): (icon: string)
    ensures icon in ICONS.Values
    ensures name !in ICONS ==> icon == ICONS[IDLE]
    ensures name == "Dancing" ==> icon == "/icons/dancing.png"
    ensures name == "Walk Back" ==> icon == "/icons/walking-back.png"
    ensures name == "Stretching" ==> icon == "/icons/stretching.png"
    ensures name == "Back Flip" ==> icon == "/icons/back-flip.png"
    ensures name == "Crouch" ==> icon == "/icons/crouch.png"
    ensures name == IDLE ==> icon == "/icons/standing.png"
  {
    assert ICONS[IDLE] == DEFAULT_ICON;
    if name in ICONS then ICONS[name] else DEFAULT_ICON
  }

  /** A tile is pressed and disabled when its name is the clip name of the current action. */
  predicate IsActive(s: State, name: string): (r: bool)
    requires Valid(s)
    ensures r <==> exists a :: s.current == Some(a) && a in s.handles && s.handles[a].clipName == name
    ensures r ==> s.current != None
  {
    s.current.Some? && s.handles[s.current.value].clipName == name
  }

  datatype Tile = Tile(name: string, icon: string, active: bool)

  /** One tile per registered name, in the registry's key order. */
  function Tiles(s: State): (ts: seq<Tile>)
    requires Valid(s)
    ensures |ts| == |s.names|
    ensures forall i :: 0 <= i < |ts| ==> ts[i].name == s.names[i]
    ensures forall n :: n in s.actions ==> exists i :: 0 <= i < |ts| && ts[i].name == n
    ensures forall i :: 0 <= i < |ts| ==> ts[i].name in s.actions
    ensures forall i :: 0 <= i < |ts| ==> ts[i].icon == Icon(ts[i].name)
    ensures forall i :: 0 <= i < |ts| ==> (ts[i].active <==> IsActive(s, ts[i].name))
  {
    var ts := seq(|s.names|, i requires 0 <= i < |s.names| => Tile(s.names[i], Icon(s.names[i]), IsActive(s, s.names[i])));
    forall n | n in s.actions
      ensures exists i :: 0 <= i < |ts| && ts[i].name == n
    {
      var i :| 0 <= i < |s.names| && s.names[i] == n;
      assert ts[i].name == n;
    }
    ts
  }
}
