/** The state graph of the taskbar buttons (nTasks/ButtonSettings.cpp), a two-level diamond. */
module TaskButtonStates {
  import opened StateGraph

  const BASE: nat := 0
  const MINIMIZED: nat := 1
  const FLASHING: nat := 2
  const MINIMIZED_FLASHING: nat := 3
  const ACTIVE: nat := 4
  const HOVER: nat := 5
  const MINIMIZED_HOVER: nat := 6
  const ACTIVE_HOVER: nat := 7
  const FLASHING_HOVER: nat := 8
  const MINIMIZED_FLASHING_HOVER: nat := 9

  const DEPENDENCIES: Graph := [
    [],
    [],
    [],
    [FLASHING, MINIMIZED],
    [],
    [],
    [MINIMIZED, HOVER],
    [ACTIVE, HOVER],
    [FLASHING, HOVER],
    [MINIMIZED_FLASHING, MINIMIZED_HOVER]
  ]

  function Level(state: nat): nat {
    if state == MINIMIZED_FLASHING_HOVER then 2
    else if state in {MINIMIZED_FLASHING, MINIMIZED_HOVER, ACTIVE_HOVER, FLASHING_HOVER} then 1
    else 0
  }

  lemma GraphIsRanked()
    ensures WellFormed(DEPENDENCIES) && Ranked(DEPENDENCIES, Level)
  {
  }

  lemma CombinedState(active: seq<bool>, x: nat, a: nat, b: nat)
    requires Settled(DEPENDENCIES, active)
    requires x < 10 && a < 10 && b < 10 && DEPENDENCIES[x] == [a, b]
    ensures active[x] <==> active[a] && active[b]
  {
    GraphIsRanked();
    SettledIsConsistent(DEPENDENCIES, active);
    assert !Missing(DEPENDENCIES, active, x) && !Excess(DEPENDENCIES, active, x);
    assert a in DEPENDENCIES[x] && b in DEPENDENCIES[x];
  }

  /** Whatever was clicked and hovered before, the combined states are active exactly when the
      plain states they combine are; the deepest one needs three. */
  lemma CombinedStates(active: seq<bool>)
    requires Settled(DEPENDENCIES, active)
    ensures active[MINIMIZED_FLASHING] <==> active[MINIMIZED] && active[FLASHING]
    ensures active[MINIMIZED_HOVER] <==> active[MINIMIZED] && active[HOVER]
    ensures active[ACTIVE_HOVER] <==> active[ACTIVE] && active[HOVER]
    ensures active[FLASHING_HOVER] <==> active[FLASHING] && active[HOVER]
    ensures active[MINIMIZED_FLASHING_HOVER] <==> active[MINIMIZED] && active[FLASHING] && active[HOVER]
  {
    CombinedState(active, MINIMIZED_FLASHING, FLASHING, MINIMIZED);
    CombinedState(active, MINIMIZED_HOVER, MINIMIZED, HOVER);
    CombinedState(active, ACTIVE_HOVER, ACTIVE, HOVER);
    CombinedState(active, FLASHING_HOVER, FLASHING, HOVER);
    CombinedState(active, MINIMIZED_FLASHING_HOVER, MINIMIZED_FLASHING, MINIMIZED_HOVER);
  }

  /** Which of the ten states is drawn, from what holds of the button. */
  lemma DrawnState(active: seq<bool>, top: nat)
    requires Settled(DEPENDENCIES, active) && IsGreatest(active, top)
    ensures |active| == 10
    ensures var minimized, flashing, focused, hover := active[1], active[2], active[4], active[5];
            top == if minimized && flashing && hover then 9
                   else if flashing && hover then 8
                   else if focused && hover then 7
                   else if minimized && hover then 6
                   else if hover then 5
                   else if focused then 4
                   else if minimized && flashing then 3
                   else if flashing then 2
                   else if minimized then 1
                   else 0
  {
    CombinedStates(active);
    hide Settled;
  }
}
