/**
  The object graph of a scene: nodes with their plugs, plug edges, the edge groups
  that bundle the edges running from one node to another, the pairs of opposite
  groups, and the scene that owns the edge and group tables (node.cpp, node.h,
  plug.cpp, plugedge.cpp, edgegroup.cpp, edgegrouppair.cpp, straightedge.cpp,
  scene.cpp).

  The classes refer to each other in a cycle (a plug knows its node, a node its
  plugs, an edge its group, a group its pair and the pair its groups), so they share
  one module. Identity fields the source never reassigns are `const`; the fields the
  source updates are `var`. Drawing, animation, labels and signals are not modelled;
  visibility is a boolean field per item.
*/
module Graph {
  import E = Expansion
  import opened PlugNames

  /** The direction of a plug (plug.h:42-46). */
  datatype PlugDirection = IN | OUT | BOTH

  // ===========================================================================
  // Node (node.cpp, node.h)
  // ===========================================================================

  class Node {
    var displayName: string
    /** The plugs by name; a QMap, so ordered by name. */
    var allPlugs: map<string, Plug>
    var incomingPlugs: set<Plug>
    var outgoingPlugs: set<Plug>
    /** The straight edges (of edge groups and pairs) that end at this node. */
    var straightEdges: set<StraightEdge>
    var expansionState: E.NodeExpansion
    var lastExpansionState: E.NodeExpansion

    /** `Node::Node` (node.cpp:47-94), without the graphics set-up. */
    constructor (displayName: string)
      ensures this.displayName == displayName
      ensures allPlugs == map[] && incomingPlugs == {} && outgoingPlugs == {} && straightEdges == {}
      ensures State() == E.Initial && Registry()
    {
      this.displayName := displayName;
      allPlugs := map[];
      incomingPlugs := {};
      outgoingPlugs := {};
      straightEdges := {};
      expansionState := E.NONE;
      lastExpansionState := E.NONE;
    }

    function State(): E.ExpansionState
      reads this
    {
      E.ExpansionState(expansionState, lastExpansionState)
    }

    /** `isRemovable` (node.h:289): no straight edge ends here. */
    predicate IsRemovable()
      reads this
    {
      |straightEdges| == 0
    }

    /** The plug registry: every plug is filed under its own name and belongs to this
        node, and each plug sits in exactly the direction set of its direction. */
    ghost predicate Registry()
      reads this, allPlugs.Values
    {
      (forall n :: n in allPlugs ==> allPlugs[n].name == n && allPlugs[n].node == this) &&
      incomingPlugs !! outgoingPlugs &&
      incomingPlugs + outgoingPlugs == allPlugs.Values &&
      (forall p :: p in incomingPlugs ==> p.direction == PlugDirection.IN) &&
      (forall p :: p in outgoingPlugs ==> p.direction == PlugDirection.OUT)
    }

    /** The registry survives any change that keeps the node's tables and the names and
        directions of its plugs. */
    twostate lemma RegistryKept()
      requires old(Registry()) && SameExceptStraightEdges()
      requires forall p :: p in old(allPlugs.Values) ==> p.name == old(p.name) && p.direction == old(p.direction)
      ensures Registry()
    {
      assert allPlugs.Values == old(allPlugs.Values);
    }

    /** Everything of the node except its expansion state is as before. */
    twostate predicate SameExceptExpansion()
      reads this
    {
      displayName == old(displayName) && allPlugs == old(allPlugs) &&
      incomingPlugs == old(incomingPlugs) && outgoingPlugs == old(outgoingPlugs) &&
      straightEdges == old(straightEdges)
    }

    /** Everything of the node except its straight edges is as before. */
    twostate predicate SameExceptStraightEdges()
      reads this
    {
      displayName == old(displayName) && allPlugs == old(allPlugs) &&
      incomingPlugs == old(incomingPlugs) && outgoingPlugs == old(outgoingPlugs) &&
      State() == old(State())
    }

    /** The node took on the given straight edges and changed in nothing else. */
    twostate predicate GainedStraightEdges(new added: set<StraightEdge>)
      reads this
    {
      straightEdges == old(straightEdges) + added && SameExceptStraightEdges()
    }

    // -------------------------------------------------------------------------
    // Expansion (node.h:303-335, node.h:694, node.cpp:454-499)
    // -------------------------------------------------------------------------

    /** `setExpansion` without its animations. */
    method SetExpansion(newState: E.NodeExpansion)
      modifies this
      ensures State() == E.SetExpansion(old(State()), newState)
      ensures SameExceptExpansion()
    {
      if newState == expansionState {
        return;
      }
      lastExpansionState := expansionState;
      expansionState := newState;
    }

    method ResetExpansion()
      modifies this
      ensures State() == E.ResetExpansion(old(State()))
      ensures SameExceptExpansion()
    {
      SetExpansion(lastExpansionState);
    }

    method SoftSetExpansion(newState: E.NodeExpansion)
      modifies this
      ensures State() == E.SoftSetExpansion(old(State()), newState)
      ensures SameExceptExpansion()
    {
      if expansionState != E.BOTH {
        SetExpansion(newState);
      }
    }

    method SoftResetExpansion()
      modifies this
      ensures State() == E.SoftResetExpansion(old(State()))
      ensures SameExceptExpansion()
    {
      if expansionState != E.BOTH {
        SetExpansion(lastExpansionState);
      }
    }

    method ForceCollapse()
      modifies this
      ensures State() == E.ForceCollapse(old(State()))
      ensures SameExceptExpansion()
    {
      if expansionState == E.BOTH {
        SetExpansion(E.NONE);
        lastExpansionState := E.NONE;
      }
    }

    method ToggleExpansion()
      modifies this
      ensures State() == E.ToggleExpansion(old(State()))
      ensures SameExceptExpansion()
    {
      if expansionState == E.IN {
        SetExpansion(E.OUT);
      } else if expansionState == E.OUT {
        SetExpansion(E.IN);
      }
    }

    method ToggleForcedExpansion()
      modifies this
      ensures State() == E.ToggleForcedExpansion(old(State()))
      ensures SameExceptExpansion()
    {
      if expansionState == E.BOTH {
        ResetExpansion();
      } else {
        SetExpansion(E.BOTH);
      }
    }

    // -------------------------------------------------------------------------
    // Straight edges (node.h:166-177)
    // -------------------------------------------------------------------------

    method AddStraightEdge(edge: StraightEdge)
      modifies this
      ensures straightEdges == old(straightEdges) + {edge}
      ensures SameExceptStraightEdges()
    {
      straightEdges := straightEdges + {edge};
    }

    method RemoveStraightEdge(edge: StraightEdge)
      modifies this
      ensures straightEdges == old(straightEdges) - {edge}
      ensures SameExceptStraightEdges()
    {
      straightEdges := straightEdges - {edge};
    }

    // -------------------------------------------------------------------------
    // The plug registry (node.cpp:96-165, 212-269, 418-437)
    // -------------------------------------------------------------------------

    /** `getUniquePlugName` (node.cpp:418-437): the proposal itself if no plug has
        it; otherwise the first candidate "name_k", k = 2, 3, ..., that no plug has
        or that `plug` has. */
    method UniquePlugName(name: string, plug: Plug?) returns (uniqueName: string)
      ensures name !in allPlugs ==> uniqueName == name
      ensures name in allPlugs ==>
                exists k :: FirstFit(allPlugs, name, plug, k) && uniqueName == Candidate(name, DefaultSuffix, k)
      ensures uniqueName !in allPlugs || allPlugs[uniqueName] == plug
    {
      if name !in allPlugs {
        return name;
      }
      var index: nat := 2;
      while true
        invariant 2 <= index
        invariant forall j :: 2 <= j < index ==> TakenByOther(allPlugs, Candidate(name, DefaultSuffix, j), plug)
        invariant index - 2 <= |allPlugs.Keys|
        decreases |allPlugs.Keys| - (index - 2)
      {
        uniqueName := Candidate(name, DefaultSuffix, index);
        var testPlug: Plug? := if uniqueName in allPlugs then allPlugs[uniqueName] else null;
        if testPlug == plug || testPlug == null {
          assert FirstFit(allPlugs, name, plug, index);
          return;
        }
        TakenCandidatesBound(allPlugs, name, plug, index + 1);
        index := index + 1;
      }
    }

    /** `createPlug` (node.cpp:96-122): a release build turns BOTH into IN; the plug is
        filed under a name no other plug has and put into the set of its direction.
        The layout update that follows is `NodeLayout.ArrangeNodePlugs`. */
    method CreatePlug(name: string, direction: PlugDirection) returns (newPlug: Plug)
      modifies this
      ensures fresh(newPlug) && newPlug.node == this
      ensures newPlug.direction == (if direction == PlugDirection.BOTH then PlugDirection.IN else direction)
      ensures newPlug.edges == {} && newPlug.connectedPlugs == {} && newPlug.Valid()
      ensures newPlug.name !in old(allPlugs)
      ensures name !in old(allPlugs) ==> newPlug.name == name
      ensures name in old(allPlugs) ==>
                exists k :: FirstFit(old(allPlugs), name, null, k) && newPlug.name == Candidate(name, DefaultSuffix, k)
      ensures allPlugs == old(allPlugs)[newPlug.name := newPlug]
      ensures newPlug.direction == PlugDirection.IN ==>
                incomingPlugs == old(incomingPlugs) + {newPlug} && outgoingPlugs == old(outgoingPlugs)
      ensures newPlug.direction == PlugDirection.OUT ==>
                outgoingPlugs == old(outgoingPlugs) + {newPlug} && incomingPlugs == old(incomingPlugs)
      ensures old(Registry()) ==> Registry()
      ensures displayName == old(displayName) && straightEdges == old(straightEdges) && State() == old(State())
    {
      var plugDirection := direction;
      if plugDirection == PlugDirection.BOTH {
        plugDirection := PlugDirection.IN;
      }
      var uniqueName := UniquePlugName(name, null);
      newPlug := new Plug(this, uniqueName, plugDirection);
      AddedPlugFacts(allPlugs, uniqueName, newPlug);
      allPlugs := allPlugs[uniqueName := newPlug];
      if plugDirection == PlugDirection.IN {
        incomingPlugs := incomingPlugs + {newPlug};
      } else {
        outgoingPlugs := outgoingPlugs + {newPlug};
      }
    }

    /** `removePlug` (node.cpp:124-164): only a plug of this node that has no edges is
        removed; it leaves the name table and its direction set. */
    method RemovePlug(plug: Plug) returns (removed: bool)
      modifies this
      ensures removed <==> old(Owns(plug)) && plug.IsRemovable()
      ensures !removed ==> unchanged(this)
      ensures removed ==> allPlugs == old(allPlugs) - {plug.name}
      ensures removed && old(Registry()) ==>
                incomingPlugs == old(incomingPlugs) - {plug} && outgoingPlugs == old(outgoingPlugs) - {plug} &&
                plug !in allPlugs.Values && Registry()
      ensures displayName == old(displayName) && straightEdges == old(straightEdges) && State() == old(State())
    {
      if !Owns(plug) {
        return false;
      }
      if !plug.IsRemovable() {
        return false;
      }
      if plug in incomingPlugs {
        incomingPlugs := incomingPlugs - {plug};
      } else {
        outgoingPlugs := outgoingPlugs - {plug};
      }
      allPlugs := allPlugs - {plug.name};
      removed := true;
      if old(Registry()) {
        RemovedPlugFacts(old(allPlugs), plug.name, plug);
      }
    }

    /** `togglePlugDirection` (node.cpp:233-269): only a plug of this node that has no
        edges changes direction, and moves to the other direction set. */
    method TogglePlugDirection(plug: Plug) returns (toggled: bool)
      modifies this, plug
      ensures toggled <==> old(Owns(plug)) && plug.IsRemovable()
      ensures !toggled ==> unchanged(this) && unchanged(plug)
      ensures toggled ==>
                plug.direction == (if old(plug.direction) == PlugDirection.IN then PlugDirection.OUT else PlugDirection.IN)
      ensures toggled && old(plug.direction) == PlugDirection.IN ==>
                incomingPlugs == old(incomingPlugs) - {plug} && outgoingPlugs == old(outgoingPlugs) + {plug}
      ensures toggled && old(plug.direction) != PlugDirection.IN ==>
                outgoingPlugs == old(outgoingPlugs) - {plug} && incomingPlugs == old(incomingPlugs) + {plug}
      ensures plug.name == old(plug.name) && plug.edges == old(plug.edges) &&
              plug.connectedPlugs == old(plug.connectedPlugs) && plug.visible == old(plug.visible)
      ensures allPlugs == old(allPlugs) && displayName == old(displayName) &&
              straightEdges == old(straightEdges) && State() == old(State())
      ensures old(Registry()) ==> Registry()
    {
      if !Owns(plug) {
        return false;
      }
      if plug.EdgeCount() > 0 {
        return false;
      }
      if plug.direction == PlugDirection.IN {
        incomingPlugs := incomingPlugs - {plug};
        plug.SetDirection(PlugDirection.OUT);
        outgoingPlugs := outgoingPlugs + {plug};
      } else {
        outgoingPlugs := outgoingPlugs - {plug};
        plug.SetDirection(PlugDirection.IN);
        incomingPlugs := incomingPlugs + {plug};
      }
      toggled := true;
    }

    /** `renamePlug` (node.cpp:212-231): a plug of this node is filed again under a
        name that no other plug has: the requested one if it is free, otherwise the
        first free candidate. */
    method RenamePlug(plug: Plug, newName: string) returns (uniqueName: string)
      modifies this, plug
      ensures !old(Owns(plug)) ==> uniqueName == "" && unchanged(this) && unchanged(plug)
      ensures old(Owns(plug)) ==>
                plug.name == uniqueName && allPlugs == (old(allPlugs) - {old(plug.name)})[uniqueName := plug]
      ensures old(Owns(plug)) && newName !in old(allPlugs) - {old(plug.name)} ==> uniqueName == newName
      ensures old(Owns(plug)) && old(Registry()) ==> uniqueName !in old(allPlugs) - {old(plug.name)} && Registry()
      ensures plug.direction == old(plug.direction) && plug.edges == old(plug.edges) &&
              plug.connectedPlugs == old(plug.connectedPlugs) && plug.visible == old(plug.visible)
      ensures incomingPlugs == old(incomingPlugs) && outgoingPlugs == old(outgoingPlugs) &&
              displayName == old(displayName) && straightEdges == old(straightEdges) && State() == old(State())
    {
      if !Owns(plug) {
        return "";
      }
      ghost var oldPlugs := allPlugs;
      ghost var oldName := plug.name;
      allPlugs := allPlugs - {plug.name};
      assert old(Registry()) ==> forall n :: n in allPlugs ==> allPlugs[n] != plug;
      uniqueName := UniquePlugName(newName, plug);
      plug.SetName(uniqueName);
      allPlugs := allPlugs[uniqueName := plug];
      if old(Registry()) {
        RefiledPlugFacts(oldPlugs, oldName, plug, uniqueName);
      }
    }

    /** The plug is this node's plug of its name. */
    predicate Owns(plug: Plug)
      reads this, plug
    {
      plug.name in allPlugs && allPlugs[plug.name] == plug
    }
  }

  /** The candidate is the name of a plug other than `plug`. */
  predicate TakenByOther(plugs: map<string, Plug>, candidate: string, plug: Plug?)
  {
    candidate in plugs && plugs[candidate] != plug
  }

  /** `k` is the first index from 2 whose candidate is free or belongs to `plug`. */
  predicate FirstFit(plugs: map<string, Plug>, name: string, plug: Plug?, k: nat)
  {
    2 <= k &&
    !TakenByOther(plugs, Candidate(name, DefaultSuffix, k), plug) &&
    forall j :: 2 <= j < k ==> TakenByOther(plugs, Candidate(name, DefaultSuffix, j), plug)
  }

  /** At most one index is the first fit, so the unique name is determined. */
  lemma FirstFitUnique(plugs: map<string, Plug>, name: string, plug: Plug?, j: nat, k: nat)
    requires FirstFit(plugs, name, plug, j) && FirstFit(plugs, name, plug, k)
    ensures j == k
  {
  }

  /** The candidates with indices 2 up to `index` - 1 are all names of other plugs. */
  lemma {:induction false} TakenCandidatesBelow(plugs: map<string, Plug>, name: string, plug: Plug?, index: nat)
    requires forall j :: 2 <= j < index ==> TakenByOther(plugs, Candidate(name, DefaultSuffix, j), plug)
    ensures CandidatesBelow(name, index) <= plugs.Keys
  {
    if index > 2 {
      TakenCandidatesBelow(plugs, name, plug, index - 1);
      assert TakenByOther(plugs, Candidate(name, DefaultSuffix, index - 1), plug);
    }
  }

  /** Every taken candidate is a distinct plug name, so the search is bounded by the
      number of plugs. */
  lemma TakenCandidatesBound(plugs: map<string, Plug>, name: string, plug: Plug?, index: nat)
    requires 2 <= index
    requires forall j :: 2 <= j < index ==> TakenByOther(plugs, Candidate(name, DefaultSuffix, j), plug)
    ensures index - 2 <= |plugs.Keys|
  {
    var tried := CandidatesBelow(name, index);
    TakenCandidatesBelow(plugs, name, plug, index);
    CandidatesBelowCount(name, index);
    assert plugs.Keys == tried + (plugs.Keys - tried);
  }

  /** Filing a plug under a fresh key adds exactly that plug. */
  lemma AddedPlugFacts(plugs: map<string, Plug>, key: string, plug: Plug)
    requires key !in plugs
    ensures plugs[key := plug].Values == plugs.Values + {plug}
  {
    var added := plugs[key := plug];
    forall p | p in plugs.Values
      ensures p in added.Values
    {
      var n :| n in plugs && plugs[n] == p;
      assert added[n] == p;
    }
    assert added[key] == plug;
  }

  /** Removing the one key under which a plug is filed removes exactly that plug. */
  lemma RemovedPlugFacts(plugs: map<string, Plug>, key: string, plug: Plug)
    requires key in plugs && plugs[key] == plug
    requires forall n :: n in plugs && plugs[n] == plug ==> n == key
    ensures (plugs - {key}).Values == plugs.Values - {plug}
  {
    var rest := plugs - {key};
    forall p | p in plugs.Values - {plug}
      ensures p in rest.Values
    {
      var n :| n in plugs && plugs[n] == p;
      assert rest[n] == p;
    }
  }

  /** Filing a plug again under a name that no other plug has keeps the set of plugs. */
  lemma RefiledPlugFacts(plugs: map<string, Plug>, key: string, plug: Plug, newKey: string)
    requires key in plugs && plugs[key] == plug
    requires forall n :: n in plugs && plugs[n] == plug ==> n == key
    requires newKey !in plugs - {key}
    ensures ((plugs - {key})[newKey := plug]).Values == plugs.Values
  {
    RemovedPlugFacts(plugs, key, plug);
    var rest := plugs - {key};
    var refiled := rest[newKey := plug];
    forall p | p in refiled.Values
      ensures p in rest.Values + {plug}
    {
      var n :| n in refiled && refiled[n] == p;
      if n != newKey {
        assert rest[n] == p;
      }
    }
    forall p | p in rest.Values
      ensures p in refiled.Values
    {
      var n :| n in rest && rest[n] == p;
      assert refiled[n] == p;
    }
    assert refiled[newKey] == plug;
  }

  // ===========================================================================
  // Plug (plug.cpp, plug.h)
  // ===========================================================================

  class Plug {
    const node: Node
    var name: string
    var direction: PlugDirection
    var edges: set<PlugEdge>
    /** The plugs at the other end of this plug's edges. */
    var connectedPlugs: set<Plug>
    /** A plug is shown only while its node is expanded (plug.cpp:51, plug.cpp:133). */
    var visible: bool

    /** `Plug::Plug` (plug.cpp:30-58): a hidden plug without edges. */
    constructor (node: Node, name: string, direction: PlugDirection)
      ensures this.node == node && this.name == name && this.direction == direction
      ensures edges == {} && connectedPlugs == {} && !visible
    {
      this.node := node;
      this.name := name;
      this.direction := direction;
      edges := {};
      connectedPlugs := {};
      visible := false;
    }

    function EdgeCount(): nat
      reads this
    {
      |edges|
    }

    /** `isRemovable` (plug.h:186). */
    predicate IsRemovable()
      reads this
    {
      EdgeCount() == 0
    }

    /** `isConnectedWith` (plug.h:195). */
    predicate IsConnectedWith(plug: Plug)
      reads this
    {
      plug in connectedPlugs
    }

    /** The plug at the other end of `edge`. */
    function Opposite(edge: PlugEdge): Plug
    {
      if edge.startPlug == this then edge.endPlug else edge.startPlug
    }

    /** Every edge joins this plug to a different one, the connected plugs are exactly
        the other ends, no two edges lead to the same plug, and an incoming plug has at
        most one edge. */
    ghost predicate Valid()
      reads this
    {
      (forall e :: e in edges ==> (e.startPlug == this || e.endPlug == this) && e.startPlug != e.endPlug) &&
      connectedPlugs == (set e | e in edges :: Opposite(e)) &&
      (forall e1, e2 :: e1 in edges && e2 in edges && Opposite(e1) == Opposite(e2) ==> e1 == e2) &&
      (direction == PlugDirection.IN ==> |edges| <= 1)
    }

    /** The plug keeps its name, its direction and its visibility: what an edge
        operation on the scene leaves alone. */
    twostate predicate SameIdentity()
      reads this
    {
      name == old(name) && direction == old(direction) && visible == old(visible)
    }

    /** The test of `addEdge` (plug.cpp:65-69) on the ends of an edge: the edge touches
        this plug, neither end is connected already, and an incoming plug is free. */
    predicate AdmitsEnds(startPlug: Plug, endPlug: Plug)
      reads this
    {
      (startPlug == this || endPlug == this) &&
      startPlug !in connectedPlugs && endPlug !in connectedPlugs &&
      (direction == PlugDirection.IN ==> |edges| == 0)
    }

    /** The whole test of `addEdge`, including that the edge is not known yet. */
    predicate Admits(edge: PlugEdge)
      reads this
    {
      AdmitsEnds(edge.startPlug, edge.endPlug) && edge !in edges
    }

    /** `addEdge` (plug.cpp:60-85): an admitted edge is stored together with the plug
        at its other end; any other edge is ignored. */
    method AddEdge(edge: PlugEdge)
      modifies this
      ensures old(Admits(edge)) ==>
                edges == old(edges) + {edge} && connectedPlugs == old(connectedPlugs) + {Opposite(edge)}
      ensures !old(Admits(edge)) ==> unchanged(this)
      ensures name == old(name) && direction == old(direction) && visible == old(visible)
      ensures old(Valid()) && edge.startPlug != edge.endPlug ==> Valid()
    {
      if !Admits(edge) {
        return;
      }
      edges := edges + {edge};
      if edge.startPlug == this {
        connectedPlugs := connectedPlugs + {edge.endPlug};
      } else {
        connectedPlugs := connectedPlugs + {edge.startPlug};
      }
      if old(Valid()) && edge.startPlug != edge.endPlug {
        assert connectedPlugs == (set e | e in edges :: Opposite(e)) by {
          assert (set e | e in edges :: Opposite(e)) == (set e | e in old(edges) :: Opposite(e)) + {Opposite(edge)};
        }
      }
    }

    /** The consistency that `AddEdge` keeps, for any change that adds an admitted edge
        to this plug in the same way. */
    twostate lemma AddedEdgeKeepsValid(new edge: PlugEdge, new startPlug: Plug, new endPlug: Plug)
      requires old(allocated(startPlug)) && old(allocated(endPlug))
      requires edge.startPlug == startPlug && edge.endPlug == endPlug && startPlug != endPlug
      requires old(Valid()) && old(AdmitsEnds(startPlug, endPlug)) && edge !in old(edges)
      requires edges == old(edges) + {edge} && connectedPlugs == old(connectedPlugs) + {Opposite(edge)}
      requires direction == old(direction)
      ensures Valid()
    {
      assert (set e | e in edges :: Opposite(e)) == (set e | e in old(edges) :: Opposite(e)) + {Opposite(edge)};
    }

    /** The end of `edge` that `removeEdge` takes out of the connected plugs: the start
        plug when it is connected, the end plug otherwise (plug.cpp:100-107). */
    function DroppedEnd(edge: PlugEdge): (p: Plug)
      reads this
      ensures p == edge.startPlug || p == edge.endPlug
      ensures edge.startPlug in connectedPlugs ==> p == edge.startPlug
    {
      if edge.startPlug in connectedPlugs then edge.startPlug else edge.endPlug
    }

    /** The consistency that `RemoveEdge` keeps, for any change that drops one of this
        plug's edges together with the plug at its other end. */
    twostate lemma RemovedEdgeKeepsValid(new edge: PlugEdge)
      requires old(allocated(edge))
      requires old(Valid()) && edge in old(edges)
      requires edges == old(edges) - {edge} && connectedPlugs == old(connectedPlugs) - {old(DroppedEnd(edge))}
      requires direction == old(direction)
      ensures Valid() && connectedPlugs == old(connectedPlugs) - {Opposite(edge)}
    {
      assert Opposite(edge) in old(connectedPlugs) && this !in old(connectedPlugs);
      assert (set e | e in edges :: Opposite(e)) == (set e | e in old(edges) :: Opposite(e)) - {Opposite(edge)};
    }

    /** `removeEdge` (plug.cpp:87-109): a known edge is dropped together with the end
        plug found among the connected plugs; an unknown edge is ignored. */
    method RemoveEdge(edge: PlugEdge)
      modifies this
      ensures edge !in old(edges) ==> unchanged(this)
      ensures edge in old(edges) ==>
                edges == old(edges) - {edge} && connectedPlugs == old(connectedPlugs) - {old(DroppedEnd(edge))}
      ensures old(Valid()) ==> Valid()
      ensures old(Valid()) && edge in old(edges) ==> connectedPlugs == old(connectedPlugs) - {Opposite(edge)}
      ensures name == old(name) && direction == old(direction) && visible == old(visible)
    {
      if edge !in edges {
        return;
      }
      edges := edges - {edge};
      if edge.startPlug in connectedPlugs {
        connectedPlugs := connectedPlugs - {edge.startPlug};
      } else {
        connectedPlugs := connectedPlugs - {edge.endPlug};
      }
      if old(Valid()) {
        RemovedEdgeKeepsValid(edge);
      }
    }

    /** `getArrangementPriority` (plug.cpp:308-316): the plug's own edge count plus half
        of the edge counts of the plugs it is connected to. */
    method ArrangementPriority() returns (priority: real)
      ensures priority == 0.5 * (EdgeCountSum(connectedPlugs) as real) + (|edges| as real)
      ensures priority >= 0.0
      ensures |edges| > 0 ==> priority >= 1.0
    {
      var factor: nat := 0;
      var remaining := connectedPlugs;
      while remaining != {}
        invariant remaining <= connectedPlugs
        invariant factor + EdgeCountSum(remaining) == EdgeCountSum(connectedPlugs)
        decreases remaining
      {
        var connectedPlug :| connectedPlug in remaining;
        EdgeCountSumRemove(remaining, connectedPlug);
        factor := factor + connectedPlug.EdgeCount();
        remaining := remaining - {connectedPlug};
      }
      priority := 0.5 * (factor as real) + (EdgeCount() as real);
    }

    /** A valid plug is not connected with itself. */
    lemma NotSelfConnected()
      requires Valid()
      ensures this !in connectedPlugs
    {
    }

    /** A valid plug without edges has no connected plugs. */
    lemma NoEdgesNoConnections()
      requires Valid() && |edges| == 0
      ensures connectedPlugs == {}
    {
    }

    /** `mayReceiveInput` (plug.cpp:428-436). */
    predicate MayReceiveInput()
      reads this, node
    {
      if direction == PlugDirection.IN then
        |edges| == 0 && (node.expansionState == E.IN || node.expansionState == E.BOTH)
      else
        node.expansionState == E.OUT || node.expansionState == E.BOTH
    }

    /** A collapsed node takes no new connection on any plug. */
    lemma CollapsedNodeReceivesNothing()
      requires node.expansionState == E.NONE
      ensures !MayReceiveInput()
    {
    }

    /** On an expanded node, a plug may receive input exactly when the node shows its
        direction, and an incoming plug only while it is free. */
    lemma MayReceiveInputCases()
      requires direction != PlugDirection.BOTH
      ensures MayReceiveInput() ==> node.expansionState != E.NONE
      ensures node.expansionState == E.BOTH ==> (MayReceiveInput() <==> direction == PlugDirection.OUT || |edges| == 0)
      ensures direction == PlugDirection.IN && MayReceiveInput() ==> |edges| == 0
    {
    }

    /** `setName` (plug.cpp:387-396) without the label update. */
    method SetName(name: string)
      modifies this
      ensures this.name == name
      ensures direction == old(direction) && edges == old(edges) &&
              connectedPlugs == old(connectedPlugs) && visible == old(visible)
    {
      this.name := name;
    }

    /** `setDirection` (plug.h:442), whose assertion of zero edges holds at its one caller. */
    method SetDirection(direction: PlugDirection)
      modifies this
      ensures this.direction == direction
      ensures name == old(name) && edges == old(edges) &&
              connectedPlugs == old(connectedPlugs) && visible == old(visible)
    {
      this.direction := direction;
    }
  }

  /** The total number of edges of a set of plugs. */
  ghost function EdgeCountSum(plugs: set<Plug>): nat
    reads plugs
    decreases plugs
  {
    if plugs == {} then 0
    else
      var p :| p in plugs;
      |p.edges| + EdgeCountSum(plugs - {p})
  }

  /** The sum does not depend on which plug is taken out first. */
  lemma {:induction false} EdgeCountSumRemove(plugs: set<Plug>, q: Plug)
    requires q in plugs
    ensures EdgeCountSum(plugs) == |q.edges| + EdgeCountSum(plugs - {q})
    decreases plugs
  {
    var p :| p in plugs && EdgeCountSum(plugs) == |p.edges| + EdgeCountSum(plugs - {p});
    if p != q {
      EdgeCountSumRemove(plugs - {p}, q);
      EdgeCountSumRemove(plugs - {q}, p);
      assert plugs - {p} - {q} == plugs - {q} - {p};
    }
  }

  // ===========================================================================
  // Straight edges (straightedge.cpp, straightdoubleedge.cpp)
  // ===========================================================================

  /** The straight edge of an edge group, or the double edge of a pair. */
  class StraightEdge {
    const fromNode: Node
    const toNode: Node
    var visible: bool

    /** `StraightEdge::StraightEdge` (straightedge.cpp:13-29): registers with both nodes. */
    constructor (fromNode: Node, toNode: Node)
      modifies fromNode, toNode
      ensures this.fromNode == fromNode && this.toNode == toNode && visible
      ensures fromNode.straightEdges == old(fromNode.straightEdges) + {this}
      ensures toNode.straightEdges == old(toNode.straightEdges) + {this}
      ensures fromNode.SameExceptStraightEdges() && toNode.SameExceptStraightEdges()
    {
      this.fromNode := fromNode;
      this.toNode := toNode;
      visible := true;
      new;
      fromNode.AddStraightEdge(this);
      toNode.AddStraightEdge(this);
    }
  }

  // ===========================================================================
  // Plug edges (plugedge.cpp)
  // ===========================================================================

  /** The change of a group's bent count when an edge's bent flag goes from `was` to
      `now` (plugedge.cpp:39-46). */
  function BentChange(was: bool, now: bool): (d: int)
    ensures was == now <==> d == 0
    ensures d == 1 <==> !was && now
    ensures d == -1 <==> was && !now
  {
    if was == now then 0 else if now then 1 else -1
  }

  class PlugEdge {
    const startPlug: Plug
    const endPlug: Plug
    const group: EdgeGroup
    /** An edge is bent while one of its plugs is shown (plugedge.cpp:38). */
    var isBent: bool
    var visible: bool

    /** `PlugEdge::PlugEdge` (plugedge.cpp:14-19): an unbent edge between two plugs.
        The rest of the constructor body is `Attach`. */
    constructor (startPlug: Plug, endPlug: Plug, group: EdgeGroup)
      ensures this.startPlug == startPlug && this.endPlug == endPlug && this.group == group
      ensures !isBent && visible
    {
      this.startPlug := startPlug;
      this.endPlug := endPlug;
      this.group := group;
      isBent := false;
      visible := true;
    }

    /** The edge has left both of its plugs, each of which dropped the connected plug
        `removeEdge` picks and kept its name, direction and visibility. */
    twostate predicate LeftPlugs()
      reads startPlug, endPlug
    {
      startPlug.edges == old(startPlug.edges) - {this} && endPlug.edges == old(endPlug.edges) - {this} &&
      startPlug.connectedPlugs == old(startPlug.connectedPlugs) - {old(startPlug.DroppedEnd(this))} &&
      endPlug.connectedPlugs == old(endPlug.connectedPlugs) - {old(endPlug.DroppedEnd(this))} &&
      startPlug.SameIdentity() && endPlug.SameIdentity()
    }

    /** The registration part of the constructor (plugedge.cpp:21-32): the new edge
        registers with both plugs and with its group, then takes its bent state from
        the plugs. */
    method Attach()
      requires group.InPair() && !isBent && this !in startPlug.edges && this !in endPlug.edges
      modifies this, startPlug, endPlug, group, group.PairVisuals()
      ensures startPlug != endPlug && old(startPlug.AdmitsEnds(startPlug, endPlug)) ==>
                startPlug.edges == old(startPlug.edges) + {this} &&
                startPlug.connectedPlugs == old(startPlug.connectedPlugs) + {endPlug}
      ensures startPlug != endPlug && old(endPlug.AdmitsEnds(startPlug, endPlug)) ==>
                endPlug.edges == old(endPlug.edges) + {this} &&
                endPlug.connectedPlugs == old(endPlug.connectedPlugs) + {startPlug}
      ensures startPlug != endPlug && old(startPlug.Valid()) ==> startPlug.Valid()
      ensures startPlug != endPlug && old(endPlug.Valid()) ==> endPlug.Valid()
      ensures startPlug.SameIdentity() && endPlug.SameIdentity()
      ensures group.Accepts(this) ==> group.edges == old(group.edges) + {this}
      ensures !group.Accepts(this) ==> group.edges == old(group.edges)
      ensures isBent == (startPlug.visible || endPlug.visible)
      ensures group.bentEdgesCount == old(group.bentEdgesCount) + (if isBent then 1 else 0)
      ensures group.pair == old(group.pair) && group.InPair()
    {
      RegisterWithPlugs();
      JoinGroup();
    }

    /** The registration with both plugs (plugedge.cpp:21-23). */
    method RegisterWithPlugs()
      modifies startPlug, endPlug
      ensures startPlug != endPlug && old(startPlug.Admits(this)) ==>
                startPlug.edges == old(startPlug.edges) + {this} &&
                startPlug.connectedPlugs == old(startPlug.connectedPlugs) + {endPlug}
      ensures startPlug != endPlug && old(endPlug.Admits(this)) ==>
                endPlug.edges == old(endPlug.edges) + {this} &&
                endPlug.connectedPlugs == old(endPlug.connectedPlugs) + {startPlug}
      ensures startPlug != endPlug && old(startPlug.Valid()) ==> startPlug.Valid()
      ensures startPlug != endPlug && old(endPlug.Valid()) ==> endPlug.Valid()
      ensures startPlug.SameIdentity() && endPlug.SameIdentity()
    {
      startPlug.AddEdge(this);
      endPlug.AddEdge(this);
    }

    /** The registration with the group and the first bent update (plugedge.cpp:25-32). */
    method JoinGroup()
      requires group.InPair() && !isBent
      modifies this, group, group.PairVisuals()
      ensures group.Accepts(this) ==> group.edges == old(group.edges) + {this}
      ensures !group.Accepts(this) ==> group.edges == old(group.edges)
      ensures isBent == (startPlug.visible || endPlug.visible)
      ensures group.bentEdgesCount == old(group.bentEdgesCount) + (if isBent then 1 else 0)
      ensures group.pair == old(group.pair) && group.InPair()
    {
      group.AddEdge(this);
      PlugHasChanged();
    }

    /** The bent-state part of `plugHasChanged` (plugedge.cpp:35-46): the group's count
        moves only when the bent state flips. */
    method PlugHasChanged()
      requires group.InPair()
      modifies this, group, group.PairVisuals()
      ensures isBent == (startPlug.visible || endPlug.visible)
      ensures group.bentEdgesCount == old(group.bentEdgesCount) + BentChange(old(isBent), isBent)
      ensures group.edges == old(group.edges) && group.pair == old(group.pair) && group.InPair()
    {
      var bent := startPlug.visible || endPlug.visible;
      if isBent != bent {
        isBent := bent;
        assert this in group.PairVisuals() ==> this in group.pair.firstGroup.edges + group.pair.secondGroup.edges;
        if isBent {
          group.IncreaseBentCount();
        } else {
          group.DecreaseBentCount();
        }
      }
    }
  }

  // ===========================================================================
  // Edge groups (edgegroup.cpp)
  // ===========================================================================

  /** The bent count after `removeEdge` takes an edge out of a group, leaving
      `remaining` edges (edgegroup.cpp:76-79, 92). */
  function BentAfterRemoval(count: int, remaining: nat): (r: int)
    ensures remaining == 0 && count == 0 ==> r == 0
    ensures remaining > 0 || count != 0 ==> r == count - 1
  {
    if remaining == 0 && count == 0 then 0 else count - 1
  }

  /** Taking the last edge out never leaves a negative count behind a non-negative one. */
  lemma LastRemovalKeepsCountNonNegative(count: int)
    requires count >= 0
    ensures BentAfterRemoval(count, 0) >= 0
  {
  }

  /** Taking an unbent edge out of a group whose count is 0 while another edge stays
      drives the count below zero, which the debug assertion at edgegroup.cpp:93 rejects. */
  lemma RemovalCanMakeCountNegative()
    ensures BentAfterRemoval(0, 1) == -1
  {
  }

  class EdgeGroup {
    const fromNode: Node
    const toNode: Node
    const straightEdge: StraightEdge
    /** Set by the pair right after it creates its groups (edgegrouppair.cpp:18-19). */
    var pair: EdgeGroupPair?
    var edges: set<PlugEdge>
    var bentEdgesCount: int

    /** `EdgeGroup::EdgeGroup` (edgegroup.cpp:13-32): a hidden straight edge. */
    constructor (fromNode: Node, toNode: Node)
      modifies fromNode, toNode
      ensures this.fromNode == fromNode && this.toNode == toNode
      ensures pair == null && edges == {} && bentEdgesCount == 0
      ensures fresh(straightEdge) && straightEdge.fromNode == fromNode && straightEdge.toNode == toNode
      ensures !straightEdge.visible
      ensures fromNode.straightEdges == old(fromNode.straightEdges) + {straightEdge}
      ensures toNode.straightEdges == old(toNode.straightEdges) + {straightEdge}
      ensures fromNode.SameExceptStraightEdges() && toNode.SameExceptStraightEdges()
    {
      this.fromNode := fromNode;
      this.toNode := toNode;
      pair := null;
      edges := {};
      bentEdgesCount := 0;
      straightEdge := new StraightEdge(fromNode, toNode);
      new;
      straightEdge.visible := false;
    }

    /** `getHash` (edgegroup.cpp:109-112), keyed by the ordered node pair instead of a hash. */
    function Key(): (key: (Node, Node))
      ensures key.0 == fromNode && key.1 == toNode
    {
      (fromNode, toNode)
    }

    /** The edge runs from this group's first node to its second. */
    predicate Accepts(edge: PlugEdge)
    {
      edge.startPlug.node == fromNode && edge.endPlug.node == toNode
    }

    ghost predicate EdgesRun()
      reads this
    {
      forall e :: e in edges ==> Accepts(e)
    }

    /** The group belongs to a consistent pair. */
    ghost predicate InPair()
      reads this, if pair != null then {pair.firstGroup, pair.secondGroup} else {}
    {
      pair != null && pair.Valid() && (this == pair.firstGroup || this == pair.secondGroup)
    }

    /** The other group of the pair. */
    ghost function Other(): EdgeGroup
      requires pair != null
      reads this
    {
      if this == pair.firstGroup then pair.secondGroup else pair.firstGroup
    }

    /** The items whose visibility the bent count of this group can change. */
    ghost function PairVisuals(): set<object>
      reads this, if pair != null then {pair.firstGroup, pair.secondGroup} else {}
    {
      if pair == null then {} else pair.VisibilityFootprint()
    }

    /** The plug edges are shown exactly while some are bent, and the straight edge of a
        non-empty group exactly while none is. */
    ghost predicate ShowsBentState()
      reads this, edges, straightEdge
    {
      (forall e :: e in edges ==> e.visible == (bentEdgesCount != 0)) &&
      (edges != {} ==> straightEdge.visible == (bentEdgesCount == 0))
    }

    /** `addEdge` (edgegroup.cpp:46-61): only edges running from `fromNode` to `toNode`
        join the group. */
    method AddEdge(edge: PlugEdge)
      modifies this
      ensures Accepts(edge) ==> edges == old(edges) + {edge}
      ensures !Accepts(edge) ==> edges == old(edges)
      ensures pair == old(pair) && bentEdgesCount == old(bentEdgesCount)
      ensures old(InPair()) ==> InPair()
    {
      if !Accepts(edge) {
        return;
      }
      edges := edges + {edge};
    }

    /** `removeEdge` (edgegroup.cpp:63-82): a member leaves the group, and the count is
        bumped from 0 to 1 before falling when the group becomes empty. */
    method RemoveEdge(edge: PlugEdge)
      requires InPair()
      modifies this, PairVisuals()
      ensures pair == old(pair) && InPair() && pair.KeepsBentFlags()
      ensures edge !in old(edges) ==> unchanged(this) && unchanged(old(PairVisuals()))
      ensures edge in old(edges) ==>
                edges == old(edges) - {edge} &&
                bentEdgesCount == BentAfterRemoval(old(bentEdgesCount), |edges|) &&
                DecreaseShown()
    {
      if edge !in edges {
        return;
      }
      DropMember(edge);
    }

    /** What `decreaseBentCount` leaves visible (edgegroup.cpp:90-107,
        edgegrouppair.cpp:46-62): the group's plug edges show its bent state, the other
        group's keep their visibility, and when both straight edges would be shown the
        double edge replaces them. */
    twostate predicate DecreaseShown()
      requires pair != null
      reads this, Other(), edges, Other().edges, straightEdge, Other().straightEdge, pair.doubleEdge
    {
      var g, d := Other(), pair.doubleEdge;
      old(allocated(g)) && old(allocated(d)) &&
      (forall e :: e in edges ==> e.visible == (bentEdgesCount != 0)) &&
      (forall e :: e in g.edges && old(allocated(e)) ==> e.visible == old(e.visible)) &&
      var own := if edges != {} then bentEdgesCount == 0 else old(straightEdge.visible);
      var other := old(g.straightEdge.visible);
      if own && other then
        !straightEdge.visible && !g.straightEdge.visible && d.visible
      else
        straightEdge.visible == own && g.straightEdge.visible == other && d.visible == old(d.visible)
    }

    /** The work of `removeEdge` once the edge is known to be a member
        (edgegroup.cpp:72-79). */
    method DropMember(edge: PlugEdge)
      requires InPair() && edge in edges
      modifies this, edges, straightEdge, Other().straightEdge, pair.doubleEdge
      ensures edges == old(edges) - {edge}
      ensures bentEdgesCount == BentAfterRemoval(old(bentEdgesCount), |edges|)
      ensures forall e :: e in edges ==> e.visible == (bentEdgesCount != 0)
      ensures pair == old(pair) && InPair() && pair.KeepsBentFlags()
      ensures forall e :: e in Other().edges ==> e.visible == old(e.visible)
      ensures
              var own := if edges != {} then bentEdgesCount == 0 else old(straightEdge.visible);
              var other := old(Other().straightEdge.visible);
              if own && other then
                !straightEdge.visible && !Other().straightEdge.visible && pair.doubleEdge.visible
              else
                straightEdge.visible == own && Other().straightEdge.visible == other &&
                pair.doubleEdge.visible == old(pair.doubleEdge.visible)
    {
      Leave(edge);
      DecreaseBentCount();
    }

    /** The edge leaves, and the count of a group left empty is bumped from 0 to 1
        (edgegroup.cpp:72-78). */
    method Leave(edge: PlugEdge)
      requires InPair()
      modifies this
      ensures edges == old(edges) - {edge} && pair == old(pair) && InPair()
      ensures bentEdgesCount - 1 == BentAfterRemoval(old(bentEdgesCount), |edges|)
    {
      edges := edges - {edge};
      if |edges| == 0 && bentEdgesCount == 0 {
        bentEdgesCount := 1;
      }
    }

    /** `increaseBentCount` (edgegroup.cpp:84-88): the pair gives up its double edge and
        both groups show their bent state again. */
    method IncreaseBentCount()
      requires InPair()
      modifies this, PairVisuals()
      ensures bentEdgesCount == old(bentEdgesCount) + 1
      ensures edges == old(edges) && pair == old(pair) && InPair() && pair.KeepsBentFlags()
      ensures !pair.doubleEdge.visible
      ensures pair.firstGroup.ShowsBentState() && pair.secondGroup.ShowsBentState()
      ensures Other().edges == {} ==> Other().straightEdge.visible == old(Other().straightEdge.visible)
    {
      bentEdgesCount := bentEdgesCount + 1;
      pair.HideDoubleEdge();
    }

    /** `decreaseBentCount` (edgegroup.cpp:90-96): the group shows its bent state, and
        the pair swaps in its double edge when both straight edges end up shown. */
    method DecreaseBentCount()
      requires InPair()
      modifies this, edges, straightEdge, Other().straightEdge, pair.doubleEdge
      ensures bentEdgesCount == old(bentEdgesCount) - 1
      ensures edges == old(edges) && pair == old(pair) && InPair() && pair.KeepsBentFlags()
      ensures forall e :: e in edges ==> e.visible == (bentEdgesCount != 0)
      ensures forall e :: e in Other().edges ==> e.visible == old(e.visible)
      ensures var own := if edges != {} then bentEdgesCount == 0 else old(straightEdge.visible);
              var other := old(Other().straightEdge.visible);
              if own && other then
                !straightEdge.visible && !Other().straightEdge.visible && pair.doubleEdge.visible
              else
                straightEdge.visible == own && Other().straightEdge.visible == other &&
                pair.doubleEdge.visible == old(pair.doubleEdge.visible)
    {
      bentEdgesCount := bentEdgesCount - 1;
      ShowBentCount();
    }

    /** The visibility half of `decreaseBentCount` (edgegroup.cpp:94-95); it changes
        only edges, never a group. */
    method ShowBentCount()
      requires InPair()
      modifies edges, straightEdge, Other().straightEdge, pair.doubleEdge
      ensures pair.KeepsBentFlags()
      ensures forall e :: e in edges ==> e.visible == (bentEdgesCount != 0)
      ensures forall e :: e in Other().edges ==> e.visible == old(e.visible)
      ensures var own := if edges != {} then bentEdgesCount == 0 else old(straightEdge.visible);
              var other := old(Other().straightEdge.visible);
              if own && other then
                !straightEdge.visible && !Other().straightEdge.visible && pair.doubleEdge.visible
              else
                straightEdge.visible == own && Other().straightEdge.visible == other &&
                pair.doubleEdge.visible == old(pair.doubleEdge.visible)
    {
      pair.DisjointGroups();
      UpdateVisibility();
      pair.UpdateDoubleEdgeVisibility();
    }

    /** `updateVisibility` (edgegroup.cpp:98-107). */
    method UpdateVisibility()
      modifies edges, straightEdge
      ensures ShowsBentState()
      ensures edges == {} ==> straightEdge.visible == old(straightEdge.visible)
      ensures forall e :: e in edges ==> e.isBent == old(e.isBent)
    {
      var visibility := bentEdgesCount != 0;
      var remaining := edges;
      while remaining != {}
        invariant remaining <= edges
        invariant forall e :: e in edges && e !in remaining ==> e.visible == visibility
        invariant forall e :: e in edges ==> e.isBent == old(e.isBent)
        invariant straightEdge.visible == old(straightEdge.visible)
        decreases remaining
      {
        var edge :| edge in remaining;
        edge.visible := visibility;
        remaining := remaining - {edge};
      }
      if |edges| > 0 {
        straightEdge.visible := !visibility;
      }
    }
  }

  // ===========================================================================
  // Edge group pairs (edgegrouppair.cpp)
  // ===========================================================================

  class EdgeGroupPair {
    const nodeA: Node
    const nodeB: Node
    const firstGroup: EdgeGroup
    const secondGroup: EdgeGroup
    const doubleEdge: StraightEdge

    /** `EdgeGroupPair::EdgeGroupPair` (edgegrouppair.cpp:15-24): the first group runs
        from A to B, the second from B to A, and the double edge starts hidden. The two
        nodes differ, as the straight edges assert (straightedge.cpp:21). */
    constructor (nodeA: Node, nodeB: Node)
      requires nodeA != nodeB
      modifies nodeA, nodeB
      ensures this.nodeA == nodeA && this.nodeB == nodeB && Valid()
      ensures fresh(firstGroup) && fresh(secondGroup) && fresh(doubleEdge)
      ensures fresh(firstGroup.straightEdge) && fresh(secondGroup.straightEdge)
      ensures firstGroup.edges == {} && secondGroup.edges == {}
      ensures firstGroup.bentEdgesCount == 0 && secondGroup.bentEdgesCount == 0
      ensures !doubleEdge.visible && !firstGroup.straightEdge.visible && !secondGroup.straightEdge.visible
      ensures nodeA.straightEdges ==
                old(nodeA.straightEdges) + StraightEdges()
      ensures nodeB.straightEdges ==
                old(nodeB.straightEdges) + StraightEdges()
      ensures nodeA.SameExceptStraightEdges() && nodeB.SameExceptStraightEdges()
    {
      this.nodeA := nodeA;
      this.nodeB := nodeB;
      firstGroup := new EdgeGroup(nodeA, nodeB);
      secondGroup := new EdgeGroup(nodeB, nodeA);
      doubleEdge := new StraightEdge(nodeA, nodeB);
      new;
      firstGroup.pair := this;
      secondGroup.pair := this;
      doubleEdge.visible := false;
    }

    /** The groups run in opposite directions between two different nodes, and the three
        straight edges are distinct and run like their groups. Only constant fields are
        involved, so no update can break it. */
    predicate Shape()
    {
      nodeA != nodeB &&
      firstGroup.fromNode == nodeA && firstGroup.toNode == nodeB &&
      secondGroup.fromNode == nodeB && secondGroup.toNode == nodeA &&
      firstGroup.straightEdge.fromNode == nodeA && firstGroup.straightEdge.toNode == nodeB &&
      secondGroup.straightEdge.fromNode == nodeB && secondGroup.straightEdge.toNode == nodeA &&
      doubleEdge.fromNode == nodeA && doubleEdge.toNode == nodeB &&
      doubleEdge != firstGroup.straightEdge && doubleEdge != secondGroup.straightEdge &&
      firstGroup.straightEdge != secondGroup.straightEdge
    }

    /** The pair has its shape, both groups point back here, and each group holds only
        edges running its way. */
    ghost predicate Valid()
      reads firstGroup, secondGroup
    {
      Shape() &&
      firstGroup.pair == this && secondGroup.pair == this &&
      firstGroup.EdgesRun() && secondGroup.EdgesRun()
    }

    /** The items whose visibility the pair's bent counts decide. */
    ghost function VisibilityFootprint(): set<object>
      reads firstGroup, secondGroup
    {
      {doubleEdge, firstGroup.straightEdge, secondGroup.straightEdge} + firstGroup.edges + secondGroup.edges
    }

    /** No plug edge changed its bent flag. */
    twostate predicate KeepsBentFlags()
      reads firstGroup, secondGroup, firstGroup.edges, secondGroup.edges
    {
      forall e :: e in firstGroup.edges + secondGroup.edges && old(allocated(e)) ==> e.isBent == old(e.isBent)
    }

    /** The two straight edges and the double edge the pair registers with its nodes. */
    function StraightEdges(): set<StraightEdge>
    {
      {firstGroup.straightEdge, secondGroup.straightEdge, doubleEdge}
    }

    /** The three straight edges have left both nodes, which changed in nothing else. */
    twostate predicate LeftNodes()
      reads nodeA, nodeB
    {
      nodeA.straightEdges == old(nodeA.straightEdges) - StraightEdges() &&
      nodeB.straightEdges == old(nodeB.straightEdges) - StraightEdges() &&
      nodeA.SameExceptStraightEdges() && nodeB.SameExceptStraightEdges()
    }

    /** No edge belongs to both groups, since they run in opposite directions. */
    lemma DisjointGroups()
      requires Valid()
      ensures firstGroup.edges !! secondGroup.edges
      ensures firstGroup != secondGroup
    {
      forall e | e in firstGroup.edges
        ensures e !in secondGroup.edges
      {
        assert firstGroup.Accepts(e);
      }
    }

    /** The two groups have different keys, so the scene files them apart. */
    lemma GroupKeysDiffer()
      requires Valid()
      ensures firstGroup.Key() != secondGroup.Key()
      ensures firstGroup.Key() == (secondGroup.Key().1, secondGroup.Key().0)
    {
    }

    /** `isEmpty` (edgegrouppair.cpp:46-49). */
    predicate IsEmpty()
      reads firstGroup, secondGroup
    {
      |firstGroup.edges| == 0 && |secondGroup.edges| == 0
    }

    /** `updateDoubleEdgeVisibility` (edgegrouppair.cpp:51-62): when both straight edges
        are shown they give way to the double edge; otherwise nothing changes. */
    method UpdateDoubleEdgeVisibility()
      requires Valid()
      modifies doubleEdge, firstGroup.straightEdge, secondGroup.straightEdge
      ensures old(firstGroup.straightEdge.visible && secondGroup.straightEdge.visible) ==>
                !firstGroup.straightEdge.visible && !secondGroup.straightEdge.visible && doubleEdge.visible
      ensures !old(firstGroup.straightEdge.visible && secondGroup.straightEdge.visible) ==>
                unchanged(doubleEdge, firstGroup.straightEdge, secondGroup.straightEdge)
    {
      if !firstGroup.straightEdge.visible || !secondGroup.straightEdge.visible {
        return;
      }
      firstGroup.straightEdge.visible := false;
      secondGroup.straightEdge.visible := false;
      doubleEdge.visible := true;
    }

    /** `hideDoubleEdge` (edgegrouppair.cpp:64-72): the double edge is hidden and each
        group shows its own bent state. */
    method HideDoubleEdge()
      requires Valid()
      modifies VisibilityFootprint()
      ensures !doubleEdge.visible
      ensures firstGroup.ShowsBentState() && secondGroup.ShowsBentState()
      ensures firstGroup.edges == {} ==> firstGroup.straightEdge.visible == old(firstGroup.straightEdge.visible)
      ensures secondGroup.edges == {} ==> secondGroup.straightEdge.visible == old(secondGroup.straightEdge.visible)
      ensures KeepsBentFlags()
    {
      DisjointGroups();
      doubleEdge.visible := false;
      firstGroup.UpdateVisibility();
      secondGroup.UpdateVisibility();
    }

    /** `~EdgeGroupPair` (edgegrouppair.cpp:26-44 with edgegroup.cpp:34-44): the three
        straight edges leave both nodes. */
    method Delete(ghost groups: set<EdgeGroup>, ghost plugs: set<Plug>)
      requires Valid()
      modifies nodeA, nodeB
      ensures unchanged(groups) && unchanged(plugs)
      ensures LeftNodes()
    {
      firstGroup.straightEdge.fromNode.RemoveStraightEdge(firstGroup.straightEdge);
      firstGroup.straightEdge.toNode.RemoveStraightEdge(firstGroup.straightEdge);
      secondGroup.straightEdge.fromNode.RemoveStraightEdge(secondGroup.straightEdge);
      secondGroup.straightEdge.toNode.RemoveStraightEdge(secondGroup.straightEdge);
      doubleEdge.fromNode.RemoveStraightEdge(doubleEdge);
      doubleEdge.toNode.RemoveStraightEdge(doubleEdge);
    }
  }

  // ===========================================================================
  // Scene (scene.cpp)
  // ===========================================================================

  /** The key of a plug edge in the scene's edge table (scene.cpp:117, 130). */
  function EdgeKey(edge: PlugEdge): (Plug, Plug)
  {
    (edge.startPlug, edge.endPlug)
  }

  /** The key of the group an edge with the given plugs belongs to (scene.cpp:98). */
  function GroupKeyOf(key: (Plug, Plug)): (Node, Node)
  {
    (key.0.node, key.1.node)
  }

  /** The reasons `createEdge` returns no edge (scene.cpp:76-95). */
  predicate Refuses(fromPlug: Plug, toPlug: Plug)
    reads fromPlug, toPlug
  {
    fromPlug.node == toPlug.node || fromPlug.IsConnectedWith(toPlug) ||
    fromPlug.direction != PlugDirection.OUT || toPlug.direction != PlugDirection.IN ||
    toPlug.EdgeCount() != 0
  }

  /** The scene's three tables: plug edges by their plugs, edge groups by their nodes,
      and the pairs of groups. Ghost code works on them as one value. */
  datatype Tables = Tables(edges: map<(Plug, Plug), PlugEdge>, groups: map<(Node, Node), EdgeGroup>,
                           pairs: set<EdgeGroupPair>)

  /** The plugs at the ends of the edges in an edge table. */
  ghost function EndPlugs(edges: map<(Plug, Plug), PlugEdge>): set<Plug>
  {
    (set k | k in edges :: k.0) + (set k | k in edges :: k.1)
  }

  /** The plugs at the ends of a set of plug edges. */
  ghost function EdgePlugs(edges: set<PlugEdge>): set<Plug>
  {
    (set e | e in edges :: e.startPlug) + (set e | e in edges :: e.endPlug)
  }

  /** The objects the tables' agreement depends on. */
  ghost function Footprint(t: Tables): set<object>
  {
    t.groups.Values + EndPlugs(t.edges)
  }

  /** Every group is filed under its own key and belongs to a registered pair. */
  ghost predicate GroupsFiled(groups: map<(Node, Node), EdgeGroup>, pairs: set<EdgeGroupPair>)
    reads groups.Values
  {
    forall k :: k in groups ==>
      groups[k].Key() == k && groups[k].pair != null && groups[k].pair in pairs &&
      (groups[k] == groups[k].pair.firstGroup || groups[k] == groups[k].pair.secondGroup)
  }

  /** A pair has both of its groups filed, one for each direction, and is valid. */
  ghost predicate PairFiledIn(groups: map<(Node, Node), EdgeGroup>, p: EdgeGroupPair)
    reads groups.Values
  {
    (p.nodeA, p.nodeB) in groups && groups[(p.nodeA, p.nodeB)] == p.firstGroup &&
    (p.nodeB, p.nodeA) in groups && groups[(p.nodeB, p.nodeA)] == p.secondGroup &&
    p.Valid()
  }

  /** Every registered pair is filed. The trigger is chosen so that the facts about a
      group do not bring in the facts about its pair unless asked for. */
  ghost predicate PairsFiled(groups: map<(Node, Node), EdgeGroup>, pairs: set<EdgeGroupPair>)
    reads groups.Values
  {
    forall p {:trigger PairFiledIn(groups, p)} :: p in pairs ==> PairFiledIn(groups, p)
  }

  /** Every edge in the table is filed under its plugs, is known to both plugs, and
      belongs to the group of its nodes. */
  ghost predicate EdgesFiled(edges: map<(Plug, Plug), PlugEdge>, groups: map<(Node, Node), EdgeGroup>)
    reads groups.Values, EndPlugs(edges)
  {
    forall k :: k in edges ==>
      EdgeKey(edges[k]) == k && edges[k] in k.0.edges && edges[k] in k.1.edges &&
      GroupKeyOf(k) in groups && edges[k].group == groups[GroupKeyOf(k)] &&
      edges[k] in edges[k].group.edges
  }

  /** Every edge of a group is in the table. */
  ghost predicate GroupEdgesListed(edges: map<(Plug, Plug), PlugEdge>, groups: map<(Node, Node), EdgeGroup>)
    reads groups.Values
  {
    forall k, e :: k in groups && e in groups[k].edges ==> EdgeKey(e) in edges && edges[EdgeKey(e)] == e
  }

  /** The scene's three tables agree with each other. */
  ghost predicate Filed(t: Tables)
    reads Footprint(t)
  {
    GroupsFiled(t.groups, t.pairs) && PairsFiled(t.groups, t.pairs) && EdgesFiled(t.edges, t.groups) &&
    GroupEdgesListed(t.edges, t.groups)
  }

  /** The tables' agreement depends only on the groups and the plugs at the ends of
      the listed edges. */
  twostate lemma FiledFrame(t: Tables)
    requires old(Filed(t)) && unchanged(t.groups.Values) && unchanged(EndPlugs(t.edges))
    ensures Filed(t)
  {
  }

  /** The tables with a new pair filed under both of its keys. */
  function WithPair(t: Tables, p: EdgeGroupPair): Tables
  {
    t.(groups := t.groups[(p.nodeA, p.nodeB) := p.firstGroup][(p.nodeB, p.nodeA) := p.secondGroup],
       pairs := t.pairs + {p})
  }

  lemma GroupsFiledWithPair(t: Tables, p: EdgeGroupPair)
    requires GroupsFiled(t.groups, t.pairs) && p.Valid()
    ensures GroupsFiled(WithPair(t, p).groups, WithPair(t, p).pairs)
  {
    var u := WithPair(t, p);
    forall k | k in u.groups
      ensures u.groups[k].Key() == k && u.groups[k].pair != null && u.groups[k].pair in u.pairs &&
              (u.groups[k] == u.groups[k].pair.firstGroup || u.groups[k] == u.groups[k].pair.secondGroup)
    {
      if k != (p.nodeA, p.nodeB) && k != (p.nodeB, p.nodeA) {
        assert u.groups[k] == t.groups[k];
      }
    }
  }

  lemma PairsFiledWithPair(t: Tables, p: EdgeGroupPair)
    requires PairsFiled(t.groups, t.pairs) && p.Valid()
    requires (p.nodeA, p.nodeB) !in t.groups && (p.nodeB, p.nodeA) !in t.groups
    ensures PairsFiled(WithPair(t, p).groups, WithPair(t, p).pairs)
  {
    var u := WithPair(t, p);
    forall q | q in u.pairs
      ensures PairFiledIn(u.groups, q)
    {
      if q != p {
        assert PairFiledIn(t.groups, q);
      }
    }
  }

  lemma EdgesFiledWithPair(t: Tables, p: EdgeGroupPair)
    requires EdgesFiled(t.edges, t.groups)
    requires (p.nodeA, p.nodeB) !in t.groups && (p.nodeB, p.nodeA) !in t.groups
    ensures EdgesFiled(WithPair(t, p).edges, WithPair(t, p).groups)
  {
    var u := WithPair(t, p);
    forall k | k in u.edges
      ensures EdgeKey(u.edges[k]) == k && u.edges[k] in k.0.edges && u.edges[k] in k.1.edges &&
              GroupKeyOf(k) in u.groups && u.edges[k].group == u.groups[GroupKeyOf(k)] &&
              u.edges[k] in u.edges[k].group.edges
    {
      assert GroupKeyOf(k) in t.groups;
    }
  }

  lemma GroupEdgesListedWithPair(t: Tables, p: EdgeGroupPair)
    requires GroupEdgesListed(t.edges, t.groups)
    requires p.firstGroup.edges == {} && p.secondGroup.edges == {}
    ensures GroupEdgesListed(WithPair(t, p).edges, WithPair(t, p).groups)
  {
    var u := WithPair(t, p);
    forall k, e | k in u.groups && e in u.groups[k].edges
      ensures EdgeKey(e) in u.edges && u.edges[EdgeKey(e)] == e
    {
      if k == (p.nodeA, p.nodeB) || k == (p.nodeB, p.nodeA) {
        assert false;
      } else {
        assert u.groups[k] == t.groups[k];
      }
    }
  }

  /** Filing a new pair of empty groups under both of its keys keeps the tables in
      agreement. */
  twostate lemma FiledAddPair(t: Tables, new p: EdgeGroupPair)
    requires old(Filed(t)) && unchanged(Footprint(t))
    requires p.Valid()
    requires (p.nodeA, p.nodeB) !in t.groups && (p.nodeB, p.nodeA) !in t.groups
    requires p.firstGroup.edges == {} && p.secondGroup.edges == {}
    ensures Filed(WithPair(t, p))
  {
    FiledFrame(t);
    GroupsFiledWithPair(t, p);
    PairsFiledWithPair(t, p);
    EdgesFiledWithPair(t, p);
    GroupEdgesListedWithPair(t, p);
  }

  /** The groups stay filed when only one of them changed and it kept its pair. */
  twostate lemma GroupsFiledFrame(t: Tables, new group: EdgeGroup)
    requires old(allocated(group))
    requires old(GroupsFiled(t.groups, t.pairs))
    requires group.pair == old(group.pair) && unchanged(t.groups.Values - {group})
    ensures GroupsFiled(t.groups, t.pairs)
  {
    forall k | k in t.groups
      ensures t.groups[k].Key() == k && t.groups[k].pair != null && t.groups[k].pair in t.pairs &&
              (t.groups[k] == t.groups[k].pair.firstGroup || t.groups[k] == t.groups[k].pair.secondGroup)
    {
      if t.groups[k] != group {
        assert t.groups[k] in t.groups.Values - {group};
      }
    }
  }

  /** The pairs stay filed and valid when only one group changed, it kept its pair, and
      that pair is still valid. */
  twostate lemma PairsFiledFrame(t: Tables, new group: EdgeGroup)
    requires old(allocated(group))
    requires old(PairsFiled(t.groups, t.pairs))
    requires group.pair == old(group.pair) && group.pair != null && group.pair.Valid()
    requires unchanged(t.groups.Values - {group})
    ensures PairsFiled(t.groups, t.pairs)
  {
    forall q | q in t.pairs
      ensures PairFiledIn(t.groups, q)
    {
      assert old(PairFiledIn(t.groups, q));
      if q != group.pair {
        assert q.firstGroup in t.groups.Values - {group};
        assert q.secondGroup in t.groups.Values - {group};
      }
    }
  }

  /** The listed edges stay filed when a new edge joins its group and both of its plugs
      under a fresh key. */
  twostate lemma EdgesFiledAdd(t: Tables, new fromPlug: Plug, new toPlug: Plug, new group: EdgeGroup, new edge: PlugEdge)
    requires old(allocated(fromPlug)) && old(allocated(toPlug)) && old(allocated(group))
    requires old(EdgesFiled(t.edges, t.groups))
    requires edge.startPlug == fromPlug && edge.endPlug == toPlug && edge.group == group
    requires (fromPlug.node, toPlug.node) in t.groups && t.groups[(fromPlug.node, toPlug.node)] == group
    requires group.edges == old(group.edges) + {edge}
    requires fromPlug.edges == old(fromPlug.edges) + {edge} && toPlug.edges == old(toPlug.edges) + {edge}
    requires unchanged(t.groups.Values - {group}) && unchanged(EndPlugs(t.edges) - {fromPlug, toPlug})
    ensures EdgesFiled(t.edges[(fromPlug, toPlug) := edge], t.groups)
  {
    var key := (fromPlug, toPlug);
    var u := t.(edges := t.edges[key := edge]);
    forall k | k in u.edges
      ensures EdgeKey(u.edges[k]) == k && u.edges[k] in k.0.edges && u.edges[k] in k.1.edges &&
              GroupKeyOf(k) in u.groups && u.edges[k].group == u.groups[GroupKeyOf(k)] &&
              u.edges[k] in u.edges[k].group.edges
    {
      if k != key {
        assert k.0 in EndPlugs(t.edges) && k.1 in EndPlugs(t.edges);
        var g := t.groups[GroupKeyOf(k)];
        if g != group {
          assert g in t.groups.Values - {group};
        }
      }
    }
  }

  /** The group edges stay listed when a new edge joins one group and the table under
      a fresh key. */
  twostate lemma GroupEdgesListedAdd(t: Tables, new group: EdgeGroup, new edge: PlugEdge)
    requires old(allocated(group))
    requires old(GroupEdgesListed(t.edges, t.groups))
    requires EdgeKey(edge) !in t.edges
    requires group.edges == old(group.edges) + {edge} && unchanged(t.groups.Values - {group})
    ensures GroupEdgesListed(t.edges[EdgeKey(edge) := edge], t.groups)
  {
    var u := t.(edges := t.edges[EdgeKey(edge) := edge]);
    forall k, e | k in u.groups && e in u.groups[k].edges
      ensures EdgeKey(e) in u.edges && u.edges[EdgeKey(e)] == e
    {
      if e != edge {
        if t.groups[k] != group {
          assert t.groups[k] in t.groups.Values - {group};
        }
        assert e in old(t.groups[k].edges);
      }
    }
  }

  /** The listed edges stay filed when one of them leaves its group, both of its plugs
      and the table. */
  twostate lemma EdgesFiledRemove(t: Tables, new fromPlug: Plug, new toPlug: Plug, new group: EdgeGroup, new edge: PlugEdge)
    requires old(allocated(fromPlug)) && old(allocated(toPlug)) && old(allocated(group)) && old(allocated(edge))
    requires old(EdgesFiled(t.edges, t.groups))
    requires (fromPlug, toPlug) in t.edges && t.edges[(fromPlug, toPlug)] == edge
    requires group.edges == old(group.edges) - {edge}
    requires fromPlug.edges == old(fromPlug.edges) - {edge} && toPlug.edges == old(toPlug.edges) - {edge}
    requires unchanged(t.groups.Values - {group}) && unchanged(EndPlugs(t.edges) - {fromPlug, toPlug})
    ensures EdgesFiled(t.edges - {(fromPlug, toPlug)}, t.groups)
  {
    var key := (fromPlug, toPlug);
    var u := t.(edges := t.edges - {key});
    forall k | k in u.edges
      ensures EdgeKey(u.edges[k]) == k && u.edges[k] in k.0.edges && u.edges[k] in k.1.edges &&
              GroupKeyOf(k) in u.groups && u.edges[k].group == u.groups[GroupKeyOf(k)] &&
              u.edges[k] in u.edges[k].group.edges
    {
      assert k in t.edges && u.edges[k] == t.edges[k] && u.edges[k] != edge;
      assert k.0 in EndPlugs(t.edges) && k.1 in EndPlugs(t.edges);
      var g := t.groups[GroupKeyOf(k)];
      if g != group {
        assert g in t.groups.Values - {group};
      }
    }
  }

  /** A set of one element holds nothing else. */
  lemma SoleMember<T>(s: set<T>, x: T)
    requires |s| == 1 && x in s
    ensures s == {x}
  {
    assert |s - {x}| == 0;
  }

  /** The tables still agree when one group changed everything but its pair and its
      edges, as raising its bent count does. */
  twostate lemma FiledGroupKept(t: Tables, new group: EdgeGroup)
    requires old(allocated(group)) && old(Filed(t))
    requires group.pair == old(group.pair) && group.pair != null && group.pair.Valid()
    requires group.edges == old(group.edges)
    requires unchanged(t.groups.Values - {group}) && unchanged(EndPlugs(t.edges))
    ensures Filed(t)
  {
    GroupsFiledFrame(t, group);
    PairsFiledFrame(t, group);
    forall k | k in t.edges
      ensures t.edges[k] in k.0.edges && t.edges[k] in k.1.edges && t.edges[k] in t.edges[k].group.edges
    {
      assert k.0 in EndPlugs(t.edges) && k.1 in EndPlugs(t.edges);
      var g := t.groups[GroupKeyOf(k)];
      if g != group {
        assert g in t.groups.Values - {group};
      }
    }
    forall k, e | k in t.groups && e in t.groups[k].edges
      ensures EdgeKey(e) in t.edges && t.edges[EdgeKey(e)] == e
    {
      if t.groups[k] != group {
        assert t.groups[k] in t.groups.Values - {group};
      }
      assert e in old(t.groups[k].edges);
    }
  }

  /** The group edges stay listed when an edge leaves its group and the table. Each
      edge runs the way of its group, so no other group held it. */
  twostate lemma GroupEdgesListedRemove(t: Tables, new group: EdgeGroup, new edge: PlugEdge)
    requires old(allocated(group)) && old(allocated(edge))
    requires old(Filed(t))
    requires EdgeKey(edge) in t.edges && t.edges[EdgeKey(edge)] == edge && edge.group == group
    requires group.edges == old(group.edges) - {edge} && unchanged(t.groups.Values - {group})
    ensures GroupEdgesListed(t.edges - {EdgeKey(edge)}, t.groups)
  {
    var key := EdgeKey(edge);
    var u := t.(edges := t.edges - {key});
    forall k, e | k in u.groups && e in u.groups[k].edges
      ensures EdgeKey(e) in u.edges && u.edges[EdgeKey(e)] == e
    {
      var g := t.groups[k];
      if g != group {
        assert g in t.groups.Values - {group};
        assert e in old(g.edges) && old(PairFiledIn(t.groups, g.pair));
      } else {
        assert e in old(g.edges) && e != edge;
      }
      assert EdgeKey(e) != key;
    }
  }

  /** The tables without a pair and the two keys of its groups. */
  function WithoutPair(t: Tables, p: EdgeGroupPair): Tables
  {
    t.(groups := t.groups - {(p.nodeA, p.nodeB), (p.nodeB, p.nodeA)}, pairs := t.pairs - {p})
  }

  lemma GroupsFiledWithoutPair(t: Tables, p: EdgeGroupPair)
    requires GroupsFiled(t.groups, t.pairs) && PairFiledIn(t.groups, p)
    ensures GroupsFiled(WithoutPair(t, p).groups, WithoutPair(t, p).pairs)
  {
    var u := WithoutPair(t, p);
    forall k | k in u.groups
      ensures u.groups[k].Key() == k && u.groups[k].pair != null && u.groups[k].pair in u.pairs &&
              (u.groups[k] == u.groups[k].pair.firstGroup || u.groups[k] == u.groups[k].pair.secondGroup)
    {
      assert u.groups[k] == t.groups[k];
      if t.groups[k].pair == p {
        assert false;
      }
    }
  }

  lemma PairsFiledWithoutPair(t: Tables, p: EdgeGroupPair)
    requires PairsFiled(t.groups, t.pairs) && PairFiledIn(t.groups, p)
    ensures PairsFiled(WithoutPair(t, p).groups, WithoutPair(t, p).pairs)
  {
    var u := WithoutPair(t, p);
    forall q | q in u.pairs
      ensures PairFiledIn(u.groups, q)
    {
      assert PairFiledIn(t.groups, q);
      assert q.firstGroup.pair == q && q.secondGroup.pair == q;
    }
  }

  lemma EdgesFiledWithoutPair(t: Tables, p: EdgeGroupPair)
    requires EdgesFiled(t.edges, t.groups) && PairFiledIn(t.groups, p) && p.IsEmpty()
    ensures EdgesFiled(WithoutPair(t, p).edges, WithoutPair(t, p).groups)
  {
    var u := WithoutPair(t, p);
    forall k | k in u.edges
      ensures EdgeKey(u.edges[k]) == k && u.edges[k] in k.0.edges && u.edges[k] in k.1.edges &&
              GroupKeyOf(k) in u.groups && u.edges[k].group == u.groups[GroupKeyOf(k)] &&
              u.edges[k] in u.edges[k].group.edges
    {
      assert GroupKeyOf(k) in t.groups;
    }
  }

  lemma GroupEdgesListedWithoutPair(t: Tables, p: EdgeGroupPair)
    requires GroupEdgesListed(t.edges, t.groups)
    ensures GroupEdgesListed(WithoutPair(t, p).edges, WithoutPair(t, p).groups)
  {
    var u := WithoutPair(t, p);
    forall k, e | k in u.groups && e in u.groups[k].edges
      ensures EdgeKey(e) in u.edges && u.edges[EdgeKey(e)] == e
    {
      assert u.groups[k] == t.groups[k];
    }
  }

  /** Dropping a registered pair of empty groups together with both of its keys keeps
      the tables in agreement. */
  lemma FiledWithoutPair(t: Tables, p: EdgeGroupPair)
    requires Filed(t) && p in t.pairs && p.IsEmpty()
    ensures Filed(WithoutPair(t, p))
  {
    assert PairFiledIn(t.groups, p);
    GroupsFiledWithoutPair(t, p);
    PairsFiledWithoutPair(t, p);
    EdgesFiledWithoutPair(t, p);
    GroupEdgesListedWithoutPair(t, p);
  }

  class Scene {
    var nodes: set<Node>
    /** The plug edges by their (start plug, end plug) pair. */
    var edges: map<(Plug, Plug), PlugEdge>
    /** The edge groups by their (from node, to node) pair, standing in for the hash. */
    var edgeGroups: map<(Node, Node), EdgeGroup>
    var edgeGroupPairs: set<EdgeGroupPair>

    /** `Scene::Scene` (scene.cpp:14-25): empty tables; the draw edge is not modelled. */
    constructor ()
      ensures nodes == {} && edges == map[] && edgeGroups == map[] && edgeGroupPairs == {}
      ensures Valid()
    {
      nodes := {};
      edges := map[];
      edgeGroups := map[];
      edgeGroupPairs := {};
    }

    /** The current tables. */
    ghost function Current(): Tables
      reads this`edges, this`edgeGroups, this`edgeGroupPairs
    {
      Tables(edges, edgeGroups, edgeGroupPairs)
    }

    /** The edge table, the group table and the set of pairs agree with each other. */
    ghost predicate Valid()
      reads this`edges, this`edgeGroups, this`edgeGroupPairs, Footprint(Current())
    {
      Filed(Current())
    }

    /** `getEdge` (scene.cpp:175-179). */
    function GetEdge(fromPlug: Plug, toPlug: Plug): (edge: PlugEdge?)
      reads this
      ensures edge != null <==> (fromPlug, toPlug) in edges
      ensures edge != null ==> edge == edges[(fromPlug, toPlug)]
    {
      if (fromPlug, toPlug) in edges then edges[(fromPlug, toPlug)] else null
    }

    /** An edge found in the table runs between the plugs asked for, is known to both,
        and sits in the group of their nodes. */
    lemma GetEdgeFacts(fromPlug: Plug, toPlug: Plug)
      requires Valid() && GetEdge(fromPlug, toPlug) != null
      ensures var edge := GetEdge(fromPlug, toPlug);
              edge.startPlug == fromPlug && edge.endPlug == toPlug &&
              edge in fromPlug.edges && edge in toPlug.edges &&
              edge.group.Key() == (fromPlug.node, toPlug.node) && edge in edge.group.edges && edge.group.InPair()
    {
      var k := (fromPlug, toPlug);
      assert k in edges;
      var g := edgeGroups[GroupKeyOf(k)];
      assert PairFiledIn(edgeGroups, g.pair);
    }

    /** A group key is filed only together with its reverse. */
    lemma ReverseKeyFiled(a: Node, b: Node)
      requires Valid() && (b, a) in edgeGroups
      ensures (a, b) in edgeGroups
    {
      var g := edgeGroups[(b, a)];
      var p := g.pair;
      assert PairFiledIn(edgeGroups, p);
    }

    /** The groups of the scene's pairs are the filed groups. */
    ghost function GroupFrame(key: (Node, Node)): set<object>
      requires Valid()
      reads this, Footprint(Current())
    {
      if key in edgeGroups then
        var g := edgeGroups[key];
        assert PairFiledIn(edgeGroups, g.pair);
        {g as object} + g.PairVisuals()
      else {}
    }

    /** `createNode` (scene.cpp:42-48). */
    method CreateNode(name: string) returns (newNode: Node)
      modifies this
      ensures fresh(newNode) && newNode.displayName == name && newNode.State() == E.Initial
      ensures newNode.allPlugs == map[] && newNode.straightEdges == {} && newNode.Registry()
      ensures nodes == old(nodes) + {newNode}
      ensures edges == old(edges) && edgeGroups == old(edgeGroups) && edgeGroupPairs == old(edgeGroupPairs)
      ensures old(Valid()) ==> Valid()
    {
      newNode := new Node(name);
      nodes := nodes + {newNode};
      if old(Valid()) {
        FiledFrame(Current());
      }
    }

    /** `removeNode` (scene.cpp:50-71): only a node of the scene without straight edges
        is removed. */
    method RemoveNode(node: Node) returns (removed: bool)
      modifies this
      ensures removed <==> old(node in nodes) && node.IsRemovable()
      ensures removed ==> nodes == old(nodes) - {node}
      ensures !removed ==> unchanged(this)
      ensures edges == old(edges) && edgeGroups == old(edgeGroups) && edgeGroupPairs == old(edgeGroupPairs)
      ensures old(Valid()) ==> Valid()
    {
      if node !in nodes {
        return false;
      }
      if !node.IsRemovable() {
        return false;
      }
      nodes := nodes - {node};
      removed := true;
      if old(Valid()) {
        FiledFrame(Current());
      }
    }

    /** The creation of a group pair in `createEdge` (scene.cpp:104-112): a new pair of
        groups for two nodes without one is filed under both keys. */
    method AddGroupPair(fromNode: Node, toNode: Node) returns (group: EdgeGroup)
      requires Valid() && fromNode != toNode && (fromNode, toNode) !in edgeGroups
      modifies this, fromNode, toNode
      ensures Valid() && edges == old(edges) && nodes == old(nodes)
      ensures (fromNode, toNode) in edgeGroups && edgeGroups[(fromNode, toNode)] == group && group.InPair()
      ensures fresh(group) && fresh(group.pair) && group == group.pair.firstGroup &&
              fresh(group.pair.VisibilityFootprint()) && group.edges == {} && group.pair.secondGroup.edges == {} &&
              group.bentEdgesCount == 0 && edgeGroupPairs == old(edgeGroupPairs) + {group.pair} &&
              edgeGroups == old(edgeGroups)[(fromNode, toNode) := group][(toNode, fromNode) := group.pair.secondGroup]
      ensures group.pair.nodeA == fromNode && group.pair.nodeB == toNode
      ensures fromNode.GainedStraightEdges(group.pair.StraightEdges()) && toNode.GainedStraightEdges(group.pair.StraightEdges())
    {
      if (toNode, fromNode) in edgeGroups {
        ReverseKeyFiled(fromNode, toNode);
      }
      group := InsertGroupPair(fromNode, toNode);
      FiledAddPair(old(Current()), group.pair);
    }

    /** The steps of `AddGroupPair` that change state: the pair is made and both of
        its groups are entered in the tables; nothing the tables depend on changes. */
    method InsertGroupPair(fromNode: Node, toNode: Node) returns (group: EdgeGroup)
      requires fromNode != toNode
      modifies this, fromNode, toNode
      ensures fresh(group) && fresh(group.pair) && group == group.pair.firstGroup && group.InPair()
      ensures group.pair.nodeA == fromNode && group.pair.nodeB == toNode
      ensures fresh(group.pair.VisibilityFootprint()) && group.edges == {} && group.pair.secondGroup.edges == {}
      ensures group.bentEdgesCount == 0
      ensures edges == old(edges) && nodes == old(nodes) && edgeGroupPairs == old(edgeGroupPairs) + {group.pair}
      ensures edgeGroups == old(edgeGroups)[(fromNode, toNode) := group][(toNode, fromNode) := group.pair.secondGroup]
      ensures Current() == WithPair(old(Current()), group.pair)
      ensures unchanged(old(Footprint(Current())))
      ensures fromNode.GainedStraightEdges(group.pair.StraightEdges()) && toNode.GainedStraightEdges(group.pair.StraightEdges())
    {
      var newGroupPair := new EdgeGroupPair(fromNode, toNode);
      edgeGroupPairs := edgeGroupPairs + {newGroupPair};
      group := newGroupPair.firstGroup;
      edgeGroups := edgeGroups[(fromNode, toNode) := group];
      var oppositeGroup := newGroupPair.secondGroup;
      edgeGroups := edgeGroups[oppositeGroup.Key() := oppositeGroup];
    }

    /** `createEdge` (scene.cpp:73-124): an edge from an outgoing plug to a free incoming
        plug of another node that it is not yet connected with joins both plugs, the
        group of the two nodes and the edge table. */
    method CreateEdge(fromPlug: Plug, toPlug: Plug) returns (newEdge: PlugEdge?)
      requires Valid() && fromPlug.Valid() && toPlug.Valid()
      modifies this, fromPlug, toPlug, fromPlug.node, toPlug.node, GroupFrame((fromPlug.node, toPlug.node))
      ensures old(Refuses(fromPlug, toPlug)) ==>
                newEdge == null && unchanged(this, fromPlug, toPlug) && unchanged(fromPlug.node, toPlug.node) &&
                unchanged(old(GroupFrame((fromPlug.node, toPlug.node))))
      ensures !old(Refuses(fromPlug, toPlug)) ==>
                newEdge != null && fresh(newEdge) && EdgeKey(newEdge) == (fromPlug, toPlug) &&
                edges == old(edges)[(fromPlug, toPlug) := newEdge] && GetEdge(fromPlug, toPlug) == newEdge &&
                fromPlug.edges == old(fromPlug.edges) + {newEdge} &&
                fromPlug.connectedPlugs == old(fromPlug.connectedPlugs) + {toPlug} &&
                toPlug.edges == old(toPlug.edges) + {newEdge} &&
                toPlug.connectedPlugs == old(toPlug.connectedPlugs) + {fromPlug} &&
                (fromPlug.node, toPlug.node) in edgeGroups && newEdge.group == edgeGroups[(fromPlug.node, toPlug.node)] &&
                newEdge in newEdge.group.edges && nodes == old(nodes) &&
                newEdge.isBent == (fromPlug.visible || toPlug.visible)
      ensures !old(Refuses(fromPlug, toPlug)) && (fromPlug.node, toPlug.node) in old(edgeGroups) ==>
                edgeGroups == old(edgeGroups) && edgeGroupPairs == old(edgeGroupPairs) &&
                newEdge.group.edges == old(edgeGroups[(fromPlug.node, toPlug.node)].edges) + {newEdge} &&
                newEdge.group.bentEdgesCount ==
                  old(edgeGroups[(fromPlug.node, toPlug.node)].bentEdgesCount) + (if newEdge.isBent then 1 else 0) &&
                unchanged(fromPlug.node, toPlug.node)
      ensures !old(Refuses(fromPlug, toPlug)) && (fromPlug.node, toPlug.node) !in old(edgeGroups) ==>
                fresh(newEdge.group.pair) && edgeGroupPairs == old(edgeGroupPairs) + {newEdge.group.pair} &&
                edgeGroups == old(edgeGroups)[(fromPlug.node, toPlug.node) := newEdge.group]
                                             [(toPlug.node, fromPlug.node) := newEdge.group.pair.secondGroup] &&
                newEdge.group.edges == {newEdge} && newEdge.group.bentEdgesCount == (if newEdge.isBent then 1 else 0) &&
                fromPlug.node.GainedStraightEdges(newEdge.group.pair.StraightEdges()) &&
                toPlug.node.GainedStraightEdges(newEdge.group.pair.StraightEdges())
      ensures fromPlug.SameIdentity() && toPlug.SameIdentity()
      ensures Valid() && fromPlug.Valid() && toPlug.Valid()
    {
      var fromNode := fromPlug.node;
      var toNode := toPlug.node;
      if fromNode == toNode {
        return null;
      }
      if fromPlug.IsConnectedWith(toPlug) {
        return null;
      }
      if fromPlug.direction != PlugDirection.OUT || toPlug.direction != PlugDirection.IN {
        return null;
      }
      if toPlug.EdgeCount() != 0 {
        return null;
      }
      newEdge := CreateAdmittedEdge(fromPlug, toPlug);
    }

    /** The part of `createEdge` after its checks (scene.cpp:97-123): the group of the
        two nodes is found or made, and the new edge joins it, both plugs and the table. */
    method CreateAdmittedEdge(fromPlug: Plug, toPlug: Plug) returns (newEdge: PlugEdge)
      requires Valid() && fromPlug.Valid() && toPlug.Valid() && !Refuses(fromPlug, toPlug)
      modifies this, fromPlug, toPlug, fromPlug.node, toPlug.node, GroupFrame((fromPlug.node, toPlug.node))
      ensures fresh(newEdge) && EdgeKey(newEdge) == (fromPlug, toPlug) &&
              edges == old(edges)[(fromPlug, toPlug) := newEdge] && GetEdge(fromPlug, toPlug) == newEdge &&
              fromPlug.edges == old(fromPlug.edges) + {newEdge} &&
              fromPlug.connectedPlugs == old(fromPlug.connectedPlugs) + {toPlug} &&
              toPlug.edges == old(toPlug.edges) + {newEdge} &&
              toPlug.connectedPlugs == old(toPlug.connectedPlugs) + {fromPlug} &&
              (fromPlug.node, toPlug.node) in edgeGroups && newEdge.group == edgeGroups[(fromPlug.node, toPlug.node)] &&
              newEdge in newEdge.group.edges && nodes == old(nodes)
      ensures newEdge.isBent == (fromPlug.visible || toPlug.visible)
      ensures (fromPlug.node, toPlug.node) in old(edgeGroups) ==>
                edgeGroups == old(edgeGroups) && edgeGroupPairs == old(edgeGroupPairs) &&
                newEdge.group.edges == old(edgeGroups[(fromPlug.node, toPlug.node)].edges) + {newEdge} &&
                newEdge.group.bentEdgesCount ==
                  old(edgeGroups[(fromPlug.node, toPlug.node)].bentEdgesCount) + (if newEdge.isBent then 1 else 0) &&
                unchanged(fromPlug.node, toPlug.node)
      ensures (fromPlug.node, toPlug.node) !in old(edgeGroups) ==>
                fresh(newEdge.group.pair) && edgeGroupPairs == old(edgeGroupPairs) + {newEdge.group.pair} &&
                edgeGroups == old(edgeGroups)[(fromPlug.node, toPlug.node) := newEdge.group]
                                             [(toPlug.node, fromPlug.node) := newEdge.group.pair.secondGroup] &&
                newEdge.group.edges == {newEdge} && newEdge.group.bentEdgesCount == (if newEdge.isBent then 1 else 0) &&
                fromPlug.node.GainedStraightEdges(newEdge.group.pair.StraightEdges()) &&
                toPlug.node.GainedStraightEdges(newEdge.group.pair.StraightEdges())
      ensures fromPlug.SameIdentity() && toPlug.SameIdentity()
      ensures Valid() && fromPlug.Valid() && toPlug.Valid()
    {
      fromPlug.NotSelfConnected();
      toPlug.NoEdgesNoConnections();
      assert (fromPlug, toPlug) !in edges;
      var key := (fromPlug.node, toPlug.node);
      if key in edgeGroups {
        var edgeGroup := edgeGroups[key];
        assert PairFiledIn(edgeGroups, edgeGroup.pair);
        newEdge := ListNewEdge(fromPlug, toPlug, edgeGroup);
      } else {
        newEdge := ListEdgeInNewPair(fromPlug, toPlug);
      }
    }

    /** `createEdge` for two nodes without a group yet (scene.cpp:104-117): a new pair
        of groups is filed and the new edge joins its first group. */
    method ListEdgeInNewPair(fromPlug: Plug, toPlug: Plug) returns (newEdge: PlugEdge)
      requires Valid() && fromPlug.Valid() && toPlug.Valid() && fromPlug.node != toPlug.node
      requires fromPlug.AdmitsEnds(fromPlug, toPlug) && toPlug.AdmitsEnds(fromPlug, toPlug)
      requires (fromPlug, toPlug) !in edges && (fromPlug.node, toPlug.node) !in edgeGroups
      modifies this, fromPlug, toPlug, fromPlug.node, toPlug.node
      ensures fresh(newEdge) && newEdge.startPlug == fromPlug && newEdge.endPlug == toPlug
      ensures edges == old(edges)[(fromPlug, toPlug) := newEdge] && nodes == old(nodes)
      ensures fromPlug.edges == old(fromPlug.edges) + {newEdge}
      ensures fromPlug.connectedPlugs == old(fromPlug.connectedPlugs) + {toPlug}
      ensures toPlug.edges == old(toPlug.edges) + {newEdge}
      ensures toPlug.connectedPlugs == old(toPlug.connectedPlugs) + {fromPlug}
      ensures fresh(newEdge.group.pair) && edgeGroupPairs == old(edgeGroupPairs) + {newEdge.group.pair}
      ensures edgeGroups == old(edgeGroups)[(fromPlug.node, toPlug.node) := newEdge.group]
                                           [(toPlug.node, fromPlug.node) := newEdge.group.pair.secondGroup]
      ensures newEdge.group.edges == {newEdge}
      ensures newEdge.isBent == (fromPlug.visible || toPlug.visible)
      ensures newEdge.group.bentEdgesCount == (if newEdge.isBent then 1 else 0)
      ensures fromPlug.node.GainedStraightEdges(newEdge.group.pair.StraightEdges()) &&
              toPlug.node.GainedStraightEdges(newEdge.group.pair.StraightEdges())
      ensures fromPlug.SameIdentity() && toPlug.SameIdentity()
      ensures Valid() && fromPlug.Valid() && toPlug.Valid()
    {
      var edgeGroup := AddGroupPair(fromPlug.node, toPlug.node);
      assert unchanged(fromPlug, toPlug);
      ghost var bent := edgeGroup.bentEdgesCount;
      assert bent == 0;
      newEdge := ListNewEdge(fromPlug, toPlug, edgeGroup);
      assert newEdge.group.bentEdgesCount == bent + (if newEdge.isBent then 1 else 0);
    }

    /** The end of `createEdge` (scene.cpp:116-117) once the checks have passed and the
        group is known: the new edge joins both plugs and the group, and is listed. */
    method ListNewEdge(fromPlug: Plug, toPlug: Plug, group: EdgeGroup) returns (newEdge: PlugEdge)
      requires Valid() && fromPlug.Valid() && toPlug.Valid() && fromPlug != toPlug
      requires fromPlug.AdmitsEnds(fromPlug, toPlug) && toPlug.AdmitsEnds(fromPlug, toPlug)
      requires (fromPlug, toPlug) !in edges
      requires (fromPlug.node, toPlug.node) in edgeGroups && edgeGroups[(fromPlug.node, toPlug.node)] == group
      modifies this, fromPlug, toPlug, group, group.PairVisuals()
      ensures fresh(newEdge) && newEdge.startPlug == fromPlug && newEdge.endPlug == toPlug && newEdge.group == group
      ensures edges == old(edges)[(fromPlug, toPlug) := newEdge]
      ensures edgeGroups == old(edgeGroups) && edgeGroupPairs == old(edgeGroupPairs) && nodes == old(nodes)
      ensures fromPlug.edges == old(fromPlug.edges) + {newEdge}
      ensures fromPlug.connectedPlugs == old(fromPlug.connectedPlugs) + {toPlug}
      ensures toPlug.edges == old(toPlug.edges) + {newEdge}
      ensures toPlug.connectedPlugs == old(toPlug.connectedPlugs) + {fromPlug}
      ensures group.edges == old(group.edges) + {newEdge} && group.pair == old(group.pair)
      ensures newEdge.isBent == (fromPlug.visible || toPlug.visible)
      ensures group.bentEdgesCount == old(group.bentEdgesCount) + (if newEdge.isBent then 1 else 0)
      ensures fromPlug.SameIdentity() && toPlug.SameIdentity() && unchanged(fromPlug.node, toPlug.node)
      ensures Valid() && fromPlug.Valid() && toPlug.Valid()
    {
      assert PairFiledIn(edgeGroups, group.pair);
      newEdge := InsertNewEdge(fromPlug, toPlug, group);
      fromPlug.AddedEdgeKeepsValid(newEdge, fromPlug, toPlug);
      toPlug.AddedEdgeKeepsValid(newEdge, fromPlug, toPlug);
      GroupsFiledFrame(old(Current()), group);
      PairsFiledFrame(old(Current()), group);
      EdgesFiledAdd(old(Current()), fromPlug, toPlug, group, newEdge);
      GroupEdgesListedAdd(old(Current()), group, newEdge);
    }

    /** The steps of `ListNewEdge` that change state: the edge is made, registers with
        its plugs and group, and is entered in the table; no other plug and no other
        group changes. */
    method InsertNewEdge(fromPlug: Plug, toPlug: Plug, group: EdgeGroup) returns (newEdge: PlugEdge)
      requires group.InPair() && group.Key() == (fromPlug.node, toPlug.node) && fromPlug != toPlug
      requires fromPlug.AdmitsEnds(fromPlug, toPlug) && toPlug.AdmitsEnds(fromPlug, toPlug)
      modifies this, fromPlug, toPlug, group, group.PairVisuals()
      ensures fresh(newEdge) && newEdge.startPlug == fromPlug && newEdge.endPlug == toPlug && newEdge.group == group
      ensures edges == old(edges)[(fromPlug, toPlug) := newEdge]
      ensures edgeGroups == old(edgeGroups) && edgeGroupPairs == old(edgeGroupPairs) && nodes == old(nodes)
      ensures fromPlug.edges == old(fromPlug.edges) + {newEdge}
      ensures fromPlug.connectedPlugs == old(fromPlug.connectedPlugs) + {toPlug}
      ensures toPlug.edges == old(toPlug.edges) + {newEdge}
      ensures toPlug.connectedPlugs == old(toPlug.connectedPlugs) + {fromPlug}
      ensures group.edges == old(group.edges) + {newEdge}
      ensures group.pair == old(group.pair) && group.InPair()
      ensures fromPlug.SameIdentity() && toPlug.SameIdentity()
      ensures newEdge.isBent == (fromPlug.visible || toPlug.visible)
      ensures group.bentEdgesCount == old(group.bentEdgesCount) + (if newEdge.isBent then 1 else 0)
      ensures unchanged(old(edgeGroups.Values) - {group}) && unchanged(EndPlugs(old(edges)) - {fromPlug, toPlug})
      ensures unchanged(fromPlug.node, toPlug.node)
    {
      assert this !in group.PairVisuals();
      newEdge := AttachNewEdge(fromPlug, toPlug, group, edgeGroups.Values, EndPlugs(edges), {fromPlug.node, toPlug.node});
      edges := edges[(fromPlug, toPlug) := newEdge];
    }

    /** The steps of `ListNewEdge` that change objects: the edge is made and registers
        with its plugs and group; no other plug and no other group changes. */
    method AttachNewEdge(fromPlug: Plug, toPlug: Plug, group: EdgeGroup, ghost groups: set<EdgeGroup>, ghost plugs: set<Plug>,
                         ghost groupNodes: set<Node>)
      returns (newEdge: PlugEdge)
      requires group.InPair() && group.Key() == (fromPlug.node, toPlug.node) && fromPlug != toPlug
      requires fromPlug.AdmitsEnds(fromPlug, toPlug) && toPlug.AdmitsEnds(fromPlug, toPlug)
      modifies fromPlug, toPlug, group, group.PairVisuals()
      ensures fresh(newEdge) && newEdge.startPlug == fromPlug && newEdge.endPlug == toPlug && newEdge.group == group
      ensures fromPlug.edges == old(fromPlug.edges) + {newEdge}
      ensures fromPlug.connectedPlugs == old(fromPlug.connectedPlugs) + {toPlug}
      ensures toPlug.edges == old(toPlug.edges) + {newEdge}
      ensures toPlug.connectedPlugs == old(toPlug.connectedPlugs) + {fromPlug}
      ensures group.edges == old(group.edges) + {newEdge}
      ensures group.pair == old(group.pair) && group.InPair()
      ensures fromPlug.SameIdentity() && toPlug.SameIdentity()
      ensures newEdge.isBent == (fromPlug.visible || toPlug.visible)
      ensures group.bentEdgesCount == old(group.bentEdgesCount) + (if newEdge.isBent then 1 else 0)
      ensures unchanged(groups - {group}) && unchanged(plugs - {fromPlug, toPlug}) && unchanged(groupNodes)
    {
      assert forall g :: g in groups ==> g !in group.PairVisuals();
      assert forall p :: p in plugs ==> p !in group.PairVisuals();
      assert forall n :: n in groupNodes ==> n !in group.PairVisuals();
      newEdge := MakeEdge(fromPlug, toPlug, group);
    }

    /** The edge is made and registers with its plugs and group (plugedge.cpp:14-32). */
    static method MakeEdge(fromPlug: Plug, toPlug: Plug, group: EdgeGroup) returns (newEdge: PlugEdge)
      requires group.InPair() && group.Key() == (fromPlug.node, toPlug.node) && fromPlug != toPlug
      requires fromPlug.AdmitsEnds(fromPlug, toPlug) && toPlug.AdmitsEnds(fromPlug, toPlug)
      modifies fromPlug, toPlug, group, group.PairVisuals()
      ensures fresh(newEdge) && newEdge.startPlug == fromPlug && newEdge.endPlug == toPlug && newEdge.group == group
      ensures fromPlug.edges == old(fromPlug.edges) + {newEdge}
      ensures fromPlug.connectedPlugs == old(fromPlug.connectedPlugs) + {toPlug}
      ensures toPlug.edges == old(toPlug.edges) + {newEdge}
      ensures toPlug.connectedPlugs == old(toPlug.connectedPlugs) + {fromPlug}
      ensures group.edges == old(group.edges) + {newEdge}
      ensures group.pair == old(group.pair) && group.InPair()
      ensures fromPlug.SameIdentity() && toPlug.SameIdentity()
      ensures newEdge.isBent == (fromPlug.visible || toPlug.visible)
      ensures group.bentEdgesCount == old(group.bentEdgesCount) + (if newEdge.isBent then 1 else 0)
    {
      newEdge := new PlugEdge(fromPlug, toPlug, group);
      newEdge.Attach();
    }

    /** `removalRequested` (edgegroup.cpp:140-148), sent to the group filed under its
        own key: a group that holds a single edge raises its bent count and has the
        scene remove that edge; any other group ignores the request. */
    method RequestRemoval(group: EdgeGroup)
      requires Valid() && group.Key() in edgeGroups && edgeGroups[group.Key()] == group
      modifies this, group, group.PairVisuals(), EdgePlugs(group.edges), group.fromNode, group.toNode
      ensures |old(group.edges)| != 1 ==>
                unchanged(this, group) && unchanged(old(group.PairVisuals())) &&
                unchanged(old(EdgePlugs(group.edges))) && unchanged(group.fromNode, group.toNode)
      ensures |old(group.edges)| == 1 ==>
                group.edges == {} && group.pair == old(group.pair) && group.pair != null &&
                group.bentEdgesCount == BentAfterRemoval(old(group.bentEdgesCount) + 1, 0) &&
                (forall e :: e in old(group.edges) ==> edges == old(edges) - {EdgeKey(e)} && e.LeftPlugs()) &&
                (group.pair.IsEmpty() ==>
                   edgeGroupPairs == old(edgeGroupPairs) - {group.pair} &&
                   edgeGroups == old(edgeGroups) - {group.pair.firstGroup.Key(), group.pair.secondGroup.Key()} &&
                   group.pair.LeftNodes()) &&
                (!group.pair.IsEmpty() ==>
                   edgeGroupPairs == old(edgeGroupPairs) && edgeGroups == old(edgeGroups) &&
                   unchanged(group.fromNode, group.toNode))
      ensures nodes == old(nodes)
      ensures Valid()
    {
      if |group.edges| != 1 {
        return;
      }
      var edge :| edge in group.edges;
      SoleMember(group.edges, edge);
      RemoveSoleEdge(group, edge);
    }

    /** The branch of `removalRequested` that acts (edgegroup.cpp:143-146). */
    method RemoveSoleEdge(group: EdgeGroup, edge: PlugEdge)
      requires Valid() && group.Key() in edgeGroups && edgeGroups[group.Key()] == group
      requires group.edges == {edge}
      modifies this, group, group.PairVisuals(), edge.startPlug, edge.endPlug, group.fromNode, group.toNode
      ensures group.edges == {} && group.pair == old(group.pair) && group.pair != null
      ensures group.bentEdgesCount == BentAfterRemoval(old(group.bentEdgesCount) + 1, 0)
      ensures edges == old(edges) - {EdgeKey(edge)} && nodes == old(nodes)
      ensures edge.LeftPlugs()
      ensures group.pair.IsEmpty() ==>
                edgeGroupPairs == old(edgeGroupPairs) - {group.pair} &&
                edgeGroups == old(edgeGroups) - {group.pair.firstGroup.Key(), group.pair.secondGroup.Key()} &&
                group.pair.LeftNodes()
      ensures !group.pair.IsEmpty() ==>
                edgeGroupPairs == old(edgeGroupPairs) && edgeGroups == old(edgeGroups) &&
                unchanged(group.fromNode, group.toNode)
      ensures Valid()
    {
      assert PairFiledIn(edgeGroups, group.pair);
      assert EdgeKey(edge) in edges && edges[EdgeKey(edge)] == edge;
      assert group.Accepts(edge) && GroupKeyOf(EdgeKey(edge)) == group.Key();
      assert edge.group == group;
      BumpBentCount(group, {edge.startPlug, edge.endPlug}, {group.fromNode, group.toNode});
      RemoveEdge(edge);
    }

    /** The `increaseBentCount` step of `removalRequested` (edgegroup.cpp:144): the
        tables are not touched, so they still agree. */
    method BumpBentCount(group: EdgeGroup, ghost plugs: set<Plug>, ghost groupNodes: set<Node>)
      requires Valid() && group.Key() in edgeGroups && edgeGroups[group.Key()] == group
      modifies group, group.PairVisuals()
      ensures group.edges == old(group.edges) && group.pair == old(group.pair) && group.InPair()
      ensures group.bentEdgesCount == old(group.bentEdgesCount) + 1
      ensures group.PairVisuals() == old(group.PairVisuals()) && unchanged(this)
      ensures unchanged(plugs) && unchanged(groupNodes)
      ensures Valid()
    {
      assert PairFiledIn(edgeGroups, group.pair);
      assert this !in group.PairVisuals();
      RaiseBentCount(group, edgeGroups.Values - {group}, EndPlugs(edges) + plugs, groupNodes);
      FiledGroupKept(old(Current()), group);
    }

    /** `increaseBentCount` with the groups and plugs it leaves alone named. */
    method RaiseBentCount(group: EdgeGroup, ghost groups: set<EdgeGroup>, ghost plugs: set<Plug>,
                          ghost groupNodes: set<Node>)
      requires group.InPair() && group !in groups
      modifies group, group.PairVisuals()
      ensures group.edges == old(group.edges) && group.pair == old(group.pair) && group.InPair()
      ensures group.Other().edges == old(group.Other().edges)
      ensures group.bentEdgesCount == old(group.bentEdgesCount) + 1
      ensures unchanged(groups) && unchanged(plugs) && unchanged(groupNodes)
    {
      assert forall g :: g in groups ==> g !in group.PairVisuals();
      assert forall p :: p in plugs ==> p !in group.PairVisuals();
      assert forall n :: n in groupNodes ==> n !in group.PairVisuals();
      assert group.Other() !in group.PairVisuals();
      group.IncreaseBentCount();
    }

    /** `removeEdge` (scene.cpp:126-173): a listed edge leaves both plugs, the table and
        its group; the pair of groups is dropped with both keys once it holds no edge.
        An edge object is freed after its removal, so any other edge with the same plugs
        is the listed one. */
    method RemoveEdge(edge: PlugEdge)
      requires Valid()
      requires EdgeKey(edge) in edges ==> edges[EdgeKey(edge)] == edge
      modifies this, edge.startPlug, edge.endPlug, edge.group, edge.group.PairVisuals()
      modifies edge.group.fromNode, edge.group.toNode
      ensures EdgeKey(edge) !in old(edges) ==>
                unchanged(this) && unchanged(edge.startPlug, edge.endPlug, edge.group) &&
                unchanged(old(edge.group.PairVisuals())) && unchanged(edge.group.fromNode, edge.group.toNode)
      ensures EdgeKey(edge) in old(edges) ==>
                edges == old(edges) - {EdgeKey(edge)} && nodes == old(nodes) &&
                edge.LeftPlugs() &&
                edge.group.edges == old(edge.group.edges) - {edge} &&
                edge.group.bentEdgesCount == BentAfterRemoval(old(edge.group.bentEdgesCount), |edge.group.edges|) &&
                edge.group.pair == old(edge.group.pair) && edge.group.pair != null &&
                (edge.group.pair.IsEmpty() ==>
                   edgeGroupPairs == old(edgeGroupPairs) - {edge.group.pair} &&
                   edgeGroups == old(edgeGroups) - {edge.group.pair.firstGroup.Key(), edge.group.pair.secondGroup.Key()} &&
                   edge.group.pair.LeftNodes()) &&
                (!edge.group.pair.IsEmpty() ==>
                   edgeGroupPairs == old(edgeGroupPairs) && edgeGroups == old(edgeGroups) &&
                   unchanged(edge.group.fromNode, edge.group.toNode))
      ensures edge.startPlug.SameIdentity() && edge.endPlug.SameIdentity()
      ensures old(edge.startPlug.Valid()) ==> edge.startPlug.Valid()
      ensures old(edge.endPlug.Valid()) ==> edge.endPlug.Valid()
      ensures Valid()
    {
      var edgeKey := (edge.startPlug, edge.endPlug);
      if edgeKey !in edges {
        return;
      }
      RemoveListedEdge(edge);
    }

    /** `removeEdge` for an edge in the table (scene.cpp:140-162). */
    method RemoveListedEdge(edge: PlugEdge)
      requires Valid() && EdgeKey(edge) in edges && edges[EdgeKey(edge)] == edge
      modifies this, edge.startPlug, edge.endPlug, edge.group, edge.group.PairVisuals()
      modifies edge.group.fromNode, edge.group.toNode
      ensures edges == old(edges) - {EdgeKey(edge)} && nodes == old(nodes)
      ensures edge.LeftPlugs()
      ensures edge.group.edges == old(edge.group.edges) - {edge}
      ensures edge.group.bentEdgesCount == BentAfterRemoval(old(edge.group.bentEdgesCount), |edge.group.edges|)
      ensures edge.group.pair == old(edge.group.pair) && edge.group.pair != null
      ensures edge.group.pair.IsEmpty() ==>
                edgeGroupPairs == old(edgeGroupPairs) - {edge.group.pair} &&
                edgeGroups == old(edgeGroups) - {edge.group.pair.firstGroup.Key(), edge.group.pair.secondGroup.Key()} &&
                edge.group.pair.LeftNodes()
      ensures !edge.group.pair.IsEmpty() ==>
                edgeGroupPairs == old(edgeGroupPairs) && edgeGroups == old(edgeGroups) &&
                unchanged(edge.group.fromNode, edge.group.toNode)
      ensures old(edge.startPlug.Valid()) ==> edge.startPlug.Valid()
      ensures old(edge.endPlug.Valid()) ==> edge.endPlug.Valid()
      ensures Valid()
    {
      DetachListedEdge(edge);
      DropPairIfEmpty(edge.group, {edge.startPlug, edge.endPlug});
    }

    /** The end of `removeEdge` (scene.cpp:151-162): the pair of the edge's group is
        dropped when neither of its groups holds an edge any more. */
    method DropPairIfEmpty(group: EdgeGroup, ghost plugs: set<Plug>)
      requires Valid() && group.InPair() && group.pair in edgeGroupPairs
      modifies this, group.fromNode, group.toNode
      ensures edges == old(edges) && nodes == old(nodes)
      ensures unchanged(group) && unchanged(plugs)
      ensures group.pair.IsEmpty() ==>
                edgeGroupPairs == old(edgeGroupPairs) - {group.pair} &&
                edgeGroups == old(edgeGroups) - {group.pair.firstGroup.Key(), group.pair.secondGroup.Key()} &&
                group.pair.LeftNodes()
      ensures !group.pair.IsEmpty() ==> unchanged(this) && unchanged(group.fromNode, group.toNode)
      ensures Valid()
    {
      var edgeGroupPair := group.pair;
      assert {group.fromNode, group.toNode} == {edgeGroupPair.nodeA, edgeGroupPair.nodeB};
      if edgeGroupPair.IsEmpty() {
        DropPair(edgeGroupPair, {edgeGroupPair.firstGroup, edgeGroupPair.secondGroup}, plugs);
      }
    }

    /** `removeEdge` up to the test for an empty pair (scene.cpp:140-149): the edge
        leaves both plugs, the table and its group, and the tables still agree. */
    method DetachListedEdge(edge: PlugEdge)
      requires Valid() && EdgeKey(edge) in edges && edges[EdgeKey(edge)] == edge
      modifies this, edge.startPlug, edge.endPlug, edge.group, edge.group.PairVisuals()
      ensures edges == old(edges) - {EdgeKey(edge)} && nodes == old(nodes)
      ensures edgeGroups == old(edgeGroups) && edgeGroupPairs == old(edgeGroupPairs)
      ensures edge.group.edges == old(edge.group.edges) - {edge}
      ensures edge.group.pair == old(edge.group.pair) && edge.group.InPair() && edge.group.pair in edgeGroupPairs
      ensures edge.group.bentEdgesCount == BentAfterRemoval(old(edge.group.bentEdgesCount), |edge.group.edges|)
      ensures edge in old(edge.startPlug.edges) && edge in old(edge.endPlug.edges)
      ensures edge.LeftPlugs()
      ensures old(edge.startPlug.Valid()) ==> edge.startPlug.Valid()
      ensures old(edge.endPlug.Valid()) ==> edge.endPlug.Valid()
      ensures unchanged(edge.group.fromNode, edge.group.toNode)
      ensures Valid()
    {
      var edgeGroup := edge.group;
      assert edge in edge.startPlug.edges && edge in edge.endPlug.edges;
      assert PairFiledIn(edgeGroups, edgeGroup.pair);
      UnlistEdge(edge, edgeGroups.Values - {edgeGroup}, EndPlugs(edges) - {edge.startPlug, edge.endPlug},
                 {edgeGroup.fromNode, edgeGroup.toNode});
      GroupsFiledFrame(old(Current()), edgeGroup);
      PairsFiledFrame(old(Current()), edgeGroup);
      EdgesFiledRemove(old(Current()), edge.startPlug, edge.endPlug, edgeGroup, edge);
      GroupEdgesListedRemove(old(Current()), edgeGroup, edge);
    }

    /** The steps of `removeEdge` that change state (scene.cpp:140-149): the edge leaves
        both plugs, the table and its group; no other plug and no other group changes. */
    method UnlistEdge(edge: PlugEdge, ghost otherGroups: set<EdgeGroup>, ghost otherPlugs: set<Plug>,
                      ghost groupNodes: set<Node>)
      requires edge.group.InPair() && EdgeKey(edge) in edges
      requires edge.group !in otherGroups && edge.startPlug !in otherPlugs && edge.endPlug !in otherPlugs
      requires edge in edge.startPlug.edges && edge in edge.endPlug.edges
      modifies this, edge.startPlug, edge.endPlug, edge.group, edge.group.PairVisuals()
      ensures edges == old(edges) - {EdgeKey(edge)}
      ensures edgeGroups == old(edgeGroups) && edgeGroupPairs == old(edgeGroupPairs) && nodes == old(nodes)
      ensures edge.startPlug.edges == old(edge.startPlug.edges) - {edge}
      ensures edge.endPlug.edges == old(edge.endPlug.edges) - {edge}
      ensures edge.startPlug.SameIdentity() && edge.endPlug.SameIdentity()
      ensures edge.startPlug.connectedPlugs == old(edge.startPlug.connectedPlugs) - {old(edge.startPlug.DroppedEnd(edge))}
      ensures edge.endPlug.connectedPlugs == old(edge.endPlug.connectedPlugs) - {old(edge.endPlug.DroppedEnd(edge))}
      ensures edge.group.edges == old(edge.group.edges) - {edge}
      ensures edge.group.pair == old(edge.group.pair) && edge.group.InPair()
      ensures edge in old(edge.group.edges) ==>
                edge.group.bentEdgesCount == BentAfterRemoval(old(edge.group.bentEdgesCount), |edge.group.edges|)
      ensures old(edge.startPlug.Valid()) ==> edge.startPlug.Valid()
      ensures old(edge.endPlug.Valid()) ==> edge.endPlug.Valid()
      ensures unchanged(otherGroups) && unchanged(otherPlugs) && unchanged(groupNodes)
    {
      DetachFromPlugs(edge);
      edges := edges - {EdgeKey(edge)};
      assert this !in edge.group.PairVisuals();
      DetachFromGroup(edge, otherGroups, otherPlugs, groupNodes);
    }

    /** The edge leaves both of its plugs (scene.cpp:140-141). */
    method DetachFromPlugs(edge: PlugEdge)
      requires edge in edge.startPlug.edges && edge in edge.endPlug.edges
      modifies edge.startPlug, edge.endPlug
      ensures edge.startPlug.edges == old(edge.startPlug.edges) - {edge}
      ensures edge.endPlug.edges == old(edge.endPlug.edges) - {edge}
      ensures edge.startPlug.SameIdentity() && edge.endPlug.SameIdentity()
      ensures edge.startPlug.connectedPlugs == old(edge.startPlug.connectedPlugs) - {old(edge.startPlug.DroppedEnd(edge))}
      ensures edge.endPlug.connectedPlugs == old(edge.endPlug.connectedPlugs) - {old(edge.endPlug.DroppedEnd(edge))}
      ensures old(edge.startPlug.Valid()) ==> edge.startPlug.Valid()
      ensures old(edge.endPlug.Valid()) ==> edge.endPlug.Valid()
    {
      edge.startPlug.RemoveEdge(edge);
      edge.endPlug.RemoveEdge(edge);
    }

    /** The edge leaves its group (scene.cpp:147-149). */
    method DetachFromGroup(edge: PlugEdge, ghost groups: set<EdgeGroup>, ghost plugs: set<Plug>, ghost groupNodes: set<Node>)
      requires edge.group.InPair() && edge.group !in groups
      modifies edge.group, edge.group.PairVisuals()
      ensures edge.group.edges == old(edge.group.edges) - {edge}
      ensures edge.group.pair == old(edge.group.pair) && edge.group.InPair()
      ensures edge in old(edge.group.edges) ==>
                edge.group.bentEdgesCount == BentAfterRemoval(old(edge.group.bentEdgesCount), |edge.group.edges|) &&
                edge.group.DecreaseShown()
      ensures unchanged(groups) && unchanged(plugs) && unchanged(groupNodes) && unchanged(edge.startPlug, edge.endPlug)
    {
      assert forall g :: g in groups ==> g !in edge.group.PairVisuals();
      assert forall p :: p in plugs ==> p !in edge.group.PairVisuals();
      assert forall n :: n in groupNodes ==> n !in edge.group.PairVisuals();
      assert edge.startPlug !in edge.group.PairVisuals() && edge.endPlug !in edge.group.PairVisuals();
      edge.group.RemoveEdge(edge);
    }

    /** The end of `removeEdge` for a pair without edges (scene.cpp:152-162): both keys
        and the pair leave the tables, and the pair takes its straight edges and its
        double edge off its nodes. */
    method DropPair(p: EdgeGroupPair, ghost groups: set<EdgeGroup>, ghost plugs: set<Plug>)
      requires Valid() && p in edgeGroupPairs && p.IsEmpty()
      modifies this, p.nodeA, p.nodeB
      ensures unchanged(groups) && unchanged(plugs)
      ensures edgeGroups == old(edgeGroups) - {p.firstGroup.Key(), p.secondGroup.Key()}
      ensures edgeGroupPairs == old(edgeGroupPairs) - {p} && edges == old(edges) && nodes == old(nodes)
      ensures p.LeftNodes()
      ensures Valid()
    {
      assert PairFiledIn(edgeGroups, p);
      UnfilePair(p);
      FiledWithoutPair(old(Current()), p);
      label Dropped:
      p.Delete(edgeGroups.Values + groups, EndPlugs(edges) + plugs);
      FiledFrame@Dropped(Current());
    }

    /** Both keys of the pair and the pair itself leave the tables (scene.cpp:153-159). */
    method UnfilePair(p: EdgeGroupPair)
      requires p.Shape()
      modifies this
      ensures Current() == WithoutPair(old(Current()), p) && nodes == old(nodes)
    {
      edgeGroups := edgeGroups - {p.firstGroup.Key()};
      edgeGroups := edgeGroups - {p.secondGroup.Key()};
      edgeGroupPairs := edgeGroupPairs - {p};
    }
  }
}
