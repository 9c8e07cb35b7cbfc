/**
  The expansion state machine of a node (node.h:49-54, node.h:303-335, node.h:694,
  node.cpp:454-499).

  A node remembers which of its plugs are expanded and the state it had before the
  last change. The transitions are written here as functions on that pair of states;
  the class `Graph.Node` applies them to its two fields. The animations that
  `setExpansion` starts are not part of this model.
*/
module Expansion {

  /** Which plugs of a node are expanded. */
  datatype NodeExpansion = NONE | IN | OUT | BOTH

  /** The current expansion state together with the previous one. */
  datatype ExpansionState = ExpansionState(current: NodeExpansion, last: NodeExpansion)

  /** A new node is collapsed and remembers a collapsed state (node.cpp:60-61). */
  const Initial := ExpansionState(NONE, NONE)

  /** `Node::setExpansion` (node.cpp:454-499): a change of state remembers the old one. */
  function SetExpansion(s: ExpansionState, newState: NodeExpansion): (r: ExpansionState)
    ensures r.current == newState
    ensures newState == s.current ==> r == s
    ensures newState != s.current ==> r.last == s.current
  {
    if newState == s.current then s
    else ExpansionState(newState, s.current)
  }

  /** `Node::resetExpansion` (node.h:694): go back to the remembered state. */
  function ResetExpansion(s: ExpansionState): (r: ExpansionState)
    ensures r.current == s.last
  {
    SetExpansion(s, s.last)
  }

  /** `softSetExpansion` (node.h:303-305): ignored while the node is forced open. */
  function SoftSetExpansion(s: ExpansionState, newState: NodeExpansion): (r: ExpansionState)
    ensures s.current == BOTH ==> r == s
    ensures s.current != BOTH ==> r.current == newState
  {
    if s.current != BOTH then SetExpansion(s, newState) else s
  }

  /** `softResetExpansion` (node.h:310-312): ignored while the node is forced open. */
  function SoftResetExpansion(s: ExpansionState): (r: ExpansionState)
    ensures s.current == BOTH ==> r == s
    ensures s.current != BOTH ==> r.current == s.last
  {
    if s.current != BOTH then SetExpansion(s, s.last) else s
  }

  /** `forceCollapse` (node.h:317-320): a forced-open node closes and forgets. */
  function ForceCollapse(s: ExpansionState): (r: ExpansionState)
    ensures s.current == BOTH ==> r == Initial
    ensures s.current != BOTH ==> r == s
  {
    if s.current == BOTH then
      var collapsed := SetExpansion(s, NONE);
      ExpansionState(collapsed.current, NONE)
    else s
  }

  /** `toggleExpansion` (node.h:325-328): flips between the two single directions. */
  function ToggleExpansion(s: ExpansionState): (r: ExpansionState)
    ensures s.current == IN ==> r == ExpansionState(OUT, IN)
    ensures s.current == OUT ==> r == ExpansionState(IN, OUT)
    ensures s.current == NONE || s.current == BOTH ==> r == s
  {
    if s.current == IN then SetExpansion(s, OUT)
    else if s.current == OUT then SetExpansion(s, IN)
    else s
  }

  /** `toggleForcedExpansion` (node.h:333-335): forces both directions open, or
      returns to the remembered state. */
  function ToggleForcedExpansion(s: ExpansionState): (r: ExpansionState)
    ensures s.current != BOTH ==> r == ExpansionState(BOTH, s.current)
    ensures s.current == BOTH ==> r == ResetExpansion(s)
  {
    if s.current == BOTH then ResetExpansion(s) else SetExpansion(s, BOTH)
  }

  /** Setting the same state twice is the same as setting it once. */
  lemma SetExpansionIdempotent(s: ExpansionState, newState: NodeExpansion)
    ensures SetExpansion(SetExpansion(s, newState), newState) == SetExpansion(s, newState)
  {
  }

  /** Forcing the expansion open and toggling again restores the state it started
      from, and the forced state is remembered. */
  lemma ToggleForcedTwiceRestores(s: ExpansionState)
    requires s.current != BOTH
    ensures ToggleForcedExpansion(ToggleForcedExpansion(s)) == ExpansionState(s.current, BOTH)
  {
  }

  /** Toggling twice returns to the same direction and remembers the other one; on a
      collapsed or forced-open node neither toggle changes anything. */
  lemma ToggleTwiceRestores(s: ExpansionState)
    ensures s.current == IN ==> ToggleExpansion(ToggleExpansion(s)) == ExpansionState(IN, OUT)
    ensures s.current == OUT ==> ToggleExpansion(ToggleExpansion(s)) == ExpansionState(OUT, IN)
    ensures s.current == NONE || s.current == BOTH ==> ToggleExpansion(ToggleExpansion(s)) == s
  {
  }

  /** A soft set followed by a soft reset returns to the state before the set,
      unless the set asked for the current state or for BOTH. */
  lemma SoftResetUndoesSoftSet(s: ExpansionState, newState: NodeExpansion)
    requires newState != s.current && newState != BOTH
    ensures SoftResetExpansion(SoftSetExpansion(s, newState)).current == s.current
  {
  }

  /** When a transition ends forced open: a soft set only when the node already is
      forced open or BOTH is asked for, a soft reset only when the node already is
      forced open or BOTH is the remembered state, a toggle only on a forced-open node,
      and `forceCollapse` never. */
  lemma WhenTransitionsForceOpen(s: ExpansionState, newState: NodeExpansion)
    ensures SoftSetExpansion(s, newState).current == BOTH <==> s.current == BOTH || newState == BOTH
    ensures SoftResetExpansion(s).current == BOTH <==> s.current == BOTH || s.last == BOTH
    ensures ToggleExpansion(s).current == BOTH <==> s.current == BOTH
    ensures ForceCollapse(s).current != BOTH
  {
  }

  /** A soft reset of a node that remembers being forced open forces it open again. */
  lemma SoftResetReopens(s: ExpansionState)
    requires s.current != BOTH && s.last == BOTH
    ensures SoftResetExpansion(s) == ExpansionState(BOTH, s.current)
  {
  }
}
