/** The state the `gui_hint` and `ui_state` callbacks of wxgui/app.cpp work
    on: the function-static `wxWindowDisabler* wd` of gui_hint, the
    background-subtraction source id the main plot's background manager
    keeps, and what the callback passes on (warnings to the engine, yields
    to the event loop).  The background manager is not part of this model: it
    is taken to report back the last id it was given. */
module GuiState {

  const UnknownPropertyPrefix: string := "[GUI] unknown property: "

  /** The script statement ui_state emits, followed by the source id. */
  const UiStatePrefix: string := "\nui bg_subtracted_from ="

  /** What ui_state returns for a given background-subtraction source. */
  function UiStateText(bg: string): (t: string)
  {
    if bg == [] then [] else UiStatePrefix + bg
  }

  /** The text of s up to its first line break. */
  function FirstLine(s: string): (l: string)
    ensures |l| <= |s| && l == s[..|l|] && '\n' !in l
    ensures |l| < |s| ==> s[|l|] == '\n'
    decreases |s|
  {
    if s == [] || s[0] == '\n' then []
    else
      var l := [s[0]] + FirstLine(s[1..]);
      assert s[..|l|] == [s[0]] + s[1..][..|l| - 1];
      l
  }

  /** How a replayed ui-state script reads the source id back: the rest of
      the statement's line. */
  function ReadUiState(t: string): string
  {
    if |UiStatePrefix| <= |t| && t[..|UiStatePrefix|] == UiStatePrefix
    then FirstLine(t[|UiStatePrefix|..]) else []
  }

  lemma {:induction false} FirstLineOfLine(s: string)
    requires '\n' !in s
    ensures FirstLine(s) == s
    decreases |s|
  {
    if s != [] {
      assert s[0] in s;
      assert forall c :: c in s[1..] ==> c in s;
      FirstLineOfLine(s[1..]);
    }
  }

  /** Replaying the state restores the source id, as long as the id is on
      one line; the empty id emits nothing and reads back as empty. */
  lemma UiStateRoundTrip(bg: string)
    requires '\n' !in bg
    ensures ReadUiState(UiStateText(bg)) == bg
    ensures UiStateText(bg) == [] <==> bg == []
  {
    if bg != [] {
      var t := UiStateText(bg);
      assert t[..|UiStatePrefix|] == UiStatePrefix;
      assert t[|UiStatePrefix|..] == bg;
      FirstLineOfLine(bg);
    }
  }

  class Gui {
    /** gui_hint's static `wd` is not NULL. */
    var disablerSet: bool
    /** Disablers created and not yet deleted; windows stay disabled while
        this is positive. */
    var liveDisablers: nat
    /** What the background manager reports as the subtracted source. */
    var bgSubtracted: string
    /** Messages passed to the engine's warn(). */
    var warnings: seq<string>
    /** Calls of wxYield(). */
    var yieldCalls: nat

    ghost predicate Valid()
      reads this
    {
      disablerSet ==> liveDisablers > 0
    }

    predicate WindowsDisabled()
      reads this
    {
      liveDisablers > 0
    }

    constructor ()
      ensures Valid() && !disablerSet && liveDisablers == 0
      ensures bgSubtracted == [] && warnings == [] && yieldCalls == 0
    {
      disablerSet, liveDisablers := false, 0;
      bgSubtracted, warnings, yieldCalls := [], [], 0;
    }

    /** gui_hint(key, value).  "busy" with a value creates a disabler and
        keeps it in `wd`, dropping any earlier one without deleting it;
        "busy" without a value deletes the one in `wd` (deleting NULL does
        nothing). */
    method Hint(key: string, value: string)
      requires Valid()
      modifies this
      ensures Valid()
      ensures key == "busy" && value != [] ==>
                disablerSet && liveDisablers == old(liveDisablers) + 1
      ensures key == "busy" && value == [] ==>
                !disablerSet &&
                liveDisablers == (if old(disablerSet) then old(liveDisablers) - 1 else old(liveDisablers))
      ensures key != "busy" ==> disablerSet == old(disablerSet) && liveDisablers == old(liveDisablers)
      ensures key == "busy" && value != [] ==> WindowsDisabled()
      // clearing re-enables the windows only if no earlier disabler leaked
      ensures key == "busy" && value == [] ==>
                (WindowsDisabled() <==> if old(disablerSet) then old(liveDisablers) > 1 else old(liveDisablers) > 0)
      ensures yieldCalls == if key == "yield" then old(yieldCalls) + 1 else old(yieldCalls)
      ensures bgSubtracted == if key == "bg_subtracted_from" then value else old(bgSubtracted)
      ensures warnings == if key in {"busy", "yield", "bg_subtracted_from"} then old(warnings)
                          else old(warnings) + [UnknownPropertyPrefix + key]
    {
      if key == "busy" {
        if value != [] {
          disablerSet, liveDisablers := true, liveDisablers + 1;
        } else {
          if disablerSet {
            liveDisablers := liveDisablers - 1;
          }
          disablerSet := false;
        }
      } else if key == "yield" {
        yieldCalls := yieldCalls + 1;
      } else if key == "bg_subtracted_from" {
        bgSubtracted := value;
      } else {
        warnings := warnings + [UnknownPropertyPrefix + key];
      }
    }

    /** ui_state(): the statement that restores the background-subtraction
        source when a saved session is replayed, or nothing. */
    method UiState() returns (ret: string)
      ensures ret == UiStateText(bgSubtracted)
      ensures '\n' !in bgSubtracted ==> ReadUiState(ret) == bgSubtracted
    {
      ret := [];
      var bg := bgSubtracted;
      if bg != [] {
        ret := ret + UiStatePrefix + bg;
      }
      if '\n' !in bg {
        UiStateRoundTrip(bg);
      }
    }
  }
}
