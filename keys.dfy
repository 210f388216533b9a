/**
 * `on_key_press` and the key bindings of the main window
 * (src/revise_segments.py lines 237-249 and 316-321).
 */
module Keys {
  import opened Wrappers

  /** The session operation a key press asks for. */
  datatype Action = RecordTrue | RecordFalse | Replay | Previous | NextNoRecord

  /** The keysyms whose events reach `on_key_press`: the six `root.bind` calls. */
  const BoundKeys: set<string> := {"Left", "Right", "space", "Up", "Down", "Return"}

  /** `on_key_press` as written: the keysym tested for replay is `r`. */
  function OnKeyPress(keysym: string): (a: Option<Action>)
    ensures a == Some(RecordTrue) <==> keysym == "Right"
    ensures a == Some(RecordFalse) <==> keysym == "Left"
    ensures a == Some(Replay) <==> keysym == "r"
    ensures a == Some(Previous) <==> keysym == "Up"
    ensures a == Some(NextNoRecord) <==> keysym == "Down" || keysym == "Return"
  {
    if keysym == "Right" then Some(RecordTrue)
    else if keysym == "Left" then Some(RecordFalse)
    else if keysym == "r" then Some(Replay)
    else if keysym == "Up" then Some(Previous)
    else if keysym == "Down" then Some(NextNoRecord)
    else if keysym == "Return" then Some(NextNoRecord)
    else None
  }

  /**
   * What a key press does as the source is written: only bound keys are
   * delivered, and no delivered keysym is `r`, so no key replays the sound.
   */
  function Delivered(keysym: string): (a: Option<Action>)
    ensures a != Some(Replay)
    ensures keysym == "space" ==> a == None
  {
    if keysym in BoundKeys then OnKeyPress(keysym) else None
  }

  /** `on_key_press` with the replay branch testing the bound `space` keysym. */
  function OnKeyPressFixed(keysym: string): (a: Option<Action>)
    ensures keysym == "space" ==> a == Some(Replay)
    ensures keysym != "space" ==> a == OnKeyPress(keysym)
  {
    if keysym == "space" then Some(Replay) else OnKeyPress(keysym)
  }

  /**
   * What a key press does once replay tests `space`: the arrow keys and
   * Return navigate or answer, space replays, every other key does nothing.
   */
  function KeyAction(keysym: string): (a: Option<Action>)
    ensures a == Some(RecordTrue) <==> keysym == "Right"
    ensures a == Some(RecordFalse) <==> keysym == "Left"
    ensures a == Some(Replay) <==> keysym == "space"
    ensures a == Some(Previous) <==> keysym == "Up"
    ensures a == Some(NextNoRecord) <==> keysym == "Down" || keysym == "Return"
    ensures a == None <==> keysym !in BoundKeys
  {
    if keysym in BoundKeys then OnKeyPressFixed(keysym) else None
  }

  /** The fix changes only the space key: every other key behaves as written. */
  lemma FixOnlyAffectsSpace(keysym: string)
    requires keysym != "space"
    ensures KeyAction(keysym) == Delivered(keysym)
  {
  }
}
