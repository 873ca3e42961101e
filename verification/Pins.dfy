/**
  Pin carriers and the edges they project. A row pins its origins, its references and its
  Goals; what a reader sees of a pin depends on whether the reader may see its target.
 */
module Pins {
  import opened Wrappers

  /**
    A memory and a Goal are named by the same kind of id, a UUID, read as its 48-bit
    millisecond timestamp and its other 80 bits. Ids compare by their bytes, timestamp first.
   */
  datatype Id = Id(millis: nat, tail: nat) {
    predicate Before(other: Id) {
      if millis != other.millis then millis < other.millis else tail < other.tail
    }
  }

  datatype EntityKind = Fact | Abstraction | Perspective
  datatype EdgeKind = Origin | Reference
  datatype Endpoint = MemoryEnd(kind: EntityKind, id: Id) | GoalEnd(goal: Id)
  datatype Projection = Visible(target: Endpoint) | Redacted | Forgotten
  datatype Edge = Edge(source: Endpoint, target: Projection, kind: EdgeKind, createdAt: nat)

  function CreatedAt(id: Id): nat {
    id.millis
  }

  /** What a pin carrier holds. */
  datatype Node = Node(
    id: Id, kind: EntityKind, origins: seq<Id>, refs: seq<Id>, goalRefs: seq<Id>, guidedBy: seq<Id>)

  // ---- keeping Goals a reader may see -------------------------------------------------

  function Kept(goals: seq<Id>, visible: set<Id>): seq<Id> {
    if goals == [] then []
    else
      var n := |goals| - 1;
      Kept(goals[..n], visible) + if goals[n] in visible then [goals[n]] else []
  }

  function Hidden(goals: seq<Id>, visible: set<Id>): seq<Id> {
    if goals == [] then []
    else
      var n := |goals| - 1;
      Hidden(goals[..n], visible) + if goals[n] in visible then [] else [goals[n]]
  }

  /** A Goal the reader may not see becomes a plain reference. */
  function Resolved(node: Node, visible: set<Id>): Node {
    node.(refs := node.refs + Hidden(node.goalRefs, visible) + Hidden(node.guidedBy, visible),
          goalRefs := Kept(node.goalRefs, visible),
          guidedBy := Kept(node.guidedBy, visible))
  }

  function PinIds(node: Node): seq<Id> {
    node.origins + node.refs + node.goalRefs + node.guidedBy
  }

  lemma {:induction false} KeptAndHidden(goals: seq<Id>, visible: set<Id>)
    ensures multiset(goals) == multiset(Kept(goals, visible)) + multiset(Hidden(goals, visible))
  {
    if goals != [] {
      var n := |goals| - 1;
      KeptAndHidden(goals[..n], visible);
      assert goals == goals[..n] + [goals[n]];
    }
  }

  lemma {:induction false} KeptAreVisible(goals: seq<Id>, visible: set<Id>)
    ensures forall goal :: goal in Kept(goals, visible) <==> goal in goals && goal in visible
  {
    if goals != [] {
      var n := |goals| - 1;
      KeptAreVisible(goals[..n], visible);
      assert goals == goals[..n] + [goals[n]];
    }
  }

  /** Resolving loses no pin and invents none, and leaves typed only Goals the reader may see. */
  lemma ResolvingConservesPins(node: Node, visible: set<Id>)
    ensures multiset(PinIds(Resolved(node, visible))) == multiset(PinIds(node))
    ensures forall goal :: goal in Resolved(node, visible).goalRefs + Resolved(node, visible).guidedBy <==>
                           goal in node.goalRefs + node.guidedBy && goal in visible
  {
    KeptAndHidden(node.goalRefs, visible);
    KeptAndHidden(node.guidedBy, visible);
    KeptAreVisible(node.goalRefs, visible);
    KeptAreVisible(node.guidedBy, visible);
  }

  class PinNode {
    const id: Id
    const kind: EntityKind
    const origins: seq<Id>
    var refs: seq<Id>
    var goalRefs: seq<Id>
    var guidedBy: seq<Id>

    function View(): Node
      reads this
    {
      Node(id, kind, origins, refs, goalRefs, guidedBy)
    }

    constructor (node: Node)
      ensures View() == node
    {
      id, kind, origins, refs, goalRefs, guidedBy :=
        node.id, node.kind, node.origins, node.refs, node.goalRefs, node.guidedBy;
    }

    /** Drain a list of Goals: the readable ones come back, the rest are pushed to the references. */
    method Drain(goals: seq<Id>, visible: set<Id>) returns (readable: seq<Id>)
      modifies this`refs
      ensures readable == Kept(goals, visible)
      ensures refs == old(refs) + Hidden(goals, visible)
    {
      readable := [];
      var i := 0;
      while i < |goals|
        invariant 0 <= i <= |goals|
        invariant readable == Kept(goals[..i], visible)
        invariant refs == old(refs) + Hidden(goals[..i], visible)
      {
        assert goals[..i + 1][..i] == goals[..i];
        if goals[i] in visible {
          readable := readable + [goals[i]];
        } else {
          refs := refs + [goals[i]];
        }
        i := i + 1;
      }
      assert goals[..i] == goals;
    }

    method ResolveVisibleGoalRefs(visible: seq<Id>)
      modifies this
      ensures View() == Resolved(old(View()), set goal | goal in visible)
    {
      if goalRefs == [] && guidedBy == [] {
        return;
      }
      var lookup := set goal | goal in visible;
      var readable := Drain(goalRefs, lookup);
      goalRefs := readable;
      readable := Drain(guidedBy, lookup);
      guidedBy := readable;
    }
  }

  // ---- pins ---------------------------------------------------------------------------

  datatype Target = MemoryTarget(id: Id) | GoalTarget(id: Id)
  datatype Pin = Pin(target: Target, kind: EdgeKind)

  function MemoryPins(ids: seq<Id>, kind: EdgeKind): seq<Pin> {
    seq(|ids|, i requires 0 <= i < |ids| => Pin(MemoryTarget(ids[i]), kind))
  }

  function GoalPins(ids: seq<Id>): seq<Pin> {
    seq(|ids|, i requires 0 <= i < |ids| => Pin(GoalTarget(ids[i]), Reference))
  }

  /** Origins, references, Goal references, guidance: the order in which a row's pins are read. */
  function PinsOf(node: Node): seq<Pin> {
    MemoryPins(node.origins, Origin) + MemoryPins(node.refs, Reference) + GoalPins(node.goalRefs) + GoalPins(node.guidedBy)
  }

  // ---- window edges -------------------------------------------------------------------

  /** The kind of each row by id; of two rows with one id the later is kept. */
  function Kinds(nodes: seq<Node>): map<Id, EntityKind> {
    if nodes == [] then map[]
    else Kinds(nodes[..|nodes| - 1])[nodes[|nodes| - 1].id := nodes[|nodes| - 1].kind]
  }

  /** An id has a kind exactly when a row has that id, and the kind is that of the last such row. */
  lemma {:induction false} KindOfTheLastRow(nodes: seq<Node>, id: Id)
    ensures id in Kinds(nodes) <==> exists i :: 0 <= i < |nodes| && nodes[i].id == id
    ensures id in Kinds(nodes) ==>
              exists i :: && 0 <= i < |nodes| && nodes[i].id == id && Kinds(nodes)[id] == nodes[i].kind
                          && forall j :: i < j < |nodes| ==> nodes[j].id != id
  {
    if i :| 0 <= i < |nodes| && nodes[i].id == id {
      RowHasAKind(nodes, i);
    }
    if id in Kinds(nodes) {
      var i := LastRow(nodes, id);
    }
  }

  lemma {:induction false} RowHasAKind(nodes: seq<Node>, i: nat)
    requires i < |nodes|
    ensures nodes[i].id in Kinds(nodes)
  {
    var n := |nodes| - 1;
    if i < n {
      RowHasAKind(nodes[..n], i);
    }
  }

  lemma {:induction false} LastRow(nodes: seq<Node>, id: Id) returns (i: nat)
    requires id in Kinds(nodes)
    ensures i < |nodes| && nodes[i].id == id && Kinds(nodes)[id] == nodes[i].kind
    ensures forall j :: i < j < |nodes| ==> nodes[j].id != id
  {
    var n := |nodes| - 1;
    if nodes[n].id == id {
      i := n;
    } else {
      i := LastRow(nodes[..n], id);
      assert forall j :: 0 <= j < n ==> nodes[..n][j] == nodes[j];
    }
  }

  /** A Goal pin always shows; a memory pin shows when its target is in the window. */
  predicate Shows(pin: Pin, kinds: map<Id, EntityKind>) {
    pin.target.GoalTarget? || pin.target.id in kinds
  }

  function WindowEdge(node: Node, pin: Pin, kinds: map<Id, EntityKind>): Edge
    requires Shows(pin, kinds)
  {
    var end := match pin.target
               case MemoryTarget(id) => MemoryEnd(kinds[id], id)
               case GoalTarget(id) => GoalEnd(id);
    Edge(MemoryEnd(node.kind, node.id), Visible(end), pin.kind, CreatedAt(node.id))
  }

  function NodeEdges(node: Node, pins: seq<Pin>, kinds: map<Id, EntityKind>): seq<Edge> {
    if pins == [] then []
    else (if Shows(pins[0], kinds) then [WindowEdge(node, pins[0], kinds)] else []) + NodeEdges(node, pins[1..], kinds)
  }

  /** The edges of a window without a cap. */
  function WindowEdges(nodes: seq<Node>, kinds: map<Id, EntityKind>): seq<Edge> {
    if nodes == [] then [] else NodeEdges(nodes[0], PinsOf(nodes[0]), kinds) + WindowEdges(nodes[1..], kinds)
  }

  /** An edge of one row's pins is the window edge of one of them that shows. */
  lemma {:induction false} NodeEdgesAreItsPins(node: Node, pins: seq<Pin>, kinds: map<Id, EntityKind>, edge: Edge)
    ensures edge in NodeEdges(node, pins, kinds) <==>
            exists k :: 0 <= k < |pins| && Shows(pins[k], kinds) && edge == WindowEdge(node, pins[k], kinds)
  {
    if pins != [] {
      NodeEdgesAreItsPins(node, pins[1..], kinds, edge);
      assert forall k :: 0 < k < |pins| ==> pins[1..][k - 1] == pins[k];
      assert edge in NodeEdges(node, pins, kinds) <==>
             (Shows(pins[0], kinds) && edge == WindowEdge(node, pins[0], kinds)) || edge in NodeEdges(node, pins[1..], kinds);
    }
  }

  /** The uncapped window holds exactly the showing pins of its rows, so both memory ends are in it. */
  lemma {:induction false} WindowEdgesAreThePins(nodes: seq<Node>, kinds: map<Id, EntityKind>, edge: Edge)
    ensures edge in WindowEdges(nodes, kinds) <==>
            exists i, k :: && 0 <= i < |nodes| && 0 <= k < |PinsOf(nodes[i])| && Shows(PinsOf(nodes[i])[k], kinds)
                           && edge == WindowEdge(nodes[i], PinsOf(nodes[i])[k], kinds)
  {
    if nodes != [] {
      WindowEdgesAreThePins(nodes[1..], kinds, edge);
      NodeEdgesAreItsPins(nodes[0], PinsOf(nodes[0]), kinds, edge);
      assert forall i :: 0 < i < |nodes| ==> nodes[1..][i - 1] == nodes[i];
      if edge in WindowEdges(nodes[1..], kinds) {
        var i, k :| && 0 <= i < |nodes| - 1 && 0 <= k < |PinsOf(nodes[1..][i])| && Shows(PinsOf(nodes[1..][i])[k], kinds)
                    && edge == WindowEdge(nodes[1..][i], PinsOf(nodes[1..][i])[k], kinds);
        assert nodes[1..][i] == nodes[i + 1];
      }
    }
  }

  /** The edge starts at the row, is as old as the row, and ends at one of its pins, a memory only inside the window. */
  predicate Draws(node: Node, kinds: map<Id, EntityKind>, edge: Edge) {
    && edge.source == MemoryEnd(node.kind, node.id) && edge.createdAt == node.id.millis && edge.target.Visible?
    && match edge.target.target
       case MemoryEnd(kind, id) =>
         id in kinds && kind == kinds[id] && id in (if edge.kind.Origin? then node.origins else node.refs)
       case GoalEnd(goal) => edge.kind.Reference? && (goal in node.goalRefs || goal in node.guidedBy)
  }

  lemma PinIn(node: Node, pin: Pin)
    ensures pin in PinsOf(node) <==>
            match pin.target
            case MemoryTarget(id) => id in (if pin.kind.Origin? then node.origins else node.refs)
            case GoalTarget(id) => pin.kind.Reference? && (id in node.goalRefs || id in node.guidedBy)
  {
    MemoryPinIn(node.origins, Origin, pin);
    MemoryPinIn(node.refs, Reference, pin);
    GoalPinIn(node.goalRefs, pin);
    GoalPinIn(node.guidedBy, pin);
  }

  lemma MemoryPinIn(ids: seq<Id>, kind: EdgeKind, pin: Pin)
    ensures pin in MemoryPins(ids, kind) <==> pin.target.MemoryTarget? && pin.kind == kind && pin.target.id in ids
  {
    if pin.target.MemoryTarget? && pin.kind == kind && pin.target.id in ids {
      var i :| 0 <= i < |ids| && ids[i] == pin.target.id;
      assert MemoryPins(ids, kind)[i] == pin;
    }
  }

  lemma GoalPinIn(ids: seq<Id>, pin: Pin)
    ensures pin in GoalPins(ids) <==> pin.target.GoalTarget? && pin.kind == Reference && pin.target.id in ids
  {
    if pin.target.GoalTarget? && pin.kind == Reference && pin.target.id in ids {
      var i :| 0 <= i < |ids| && ids[i] == pin.target.id;
      assert GoalPins(ids)[i] == pin;
    }
  }

  lemma RowDraws(node: Node, kinds: map<Id, EntityKind>, edge: Edge)
    ensures edge in NodeEdges(node, PinsOf(node), kinds) <==> Draws(node, kinds, edge)
  {
    NodeEdgesAreItsPins(node, PinsOf(node), kinds, edge);
    if edge.target.Visible? {
      var target := match edge.target.target
                    case MemoryEnd(_, id) => MemoryTarget(id)
                    case GoalEnd(goal) => GoalTarget(goal);
      PinIn(node, Pin(target, edge.kind));
      if Draws(node, kinds, edge) {
        var k :| 0 <= k < |PinsOf(node)| && PinsOf(node)[k] == Pin(target, edge.kind);
        assert edge == WindowEdge(node, PinsOf(node)[k], kinds);
      }
    }
  }

  /** The uncapped window holds exactly the edges its rows draw, field by field. */
  lemma {:induction false} WindowHoldsWhatItsRowsDraw(nodes: seq<Node>, kinds: map<Id, EntityKind>, edge: Edge)
    ensures edge in WindowEdges(nodes, kinds) <==> exists i :: 0 <= i < |nodes| && Draws(nodes[i], kinds, edge)
  {
    if nodes != [] {
      RowDraws(nodes[0], kinds, edge);
      WindowHoldsWhatItsRowsDraw(nodes[1..], kinds, edge);
      assert forall i :: 0 < i < |nodes| ==> nodes[1..][i - 1] == nodes[i];
    }
  }

  lemma Append(a: seq<Edge>, b: seq<Edge>, c: seq<Edge>)
    ensures a + (b + c) == (a + b) + c
  {
  }

  /** Rows keep their order, and so do the pins of a row. */
  lemma {:induction false} WindowKeepsOrder(nodes: seq<Node>, more: seq<Node>, kinds: map<Id, EntityKind>)
    ensures WindowEdges(nodes + more, kinds) == WindowEdges(nodes, kinds) + WindowEdges(more, kinds)
  {
    if nodes == [] {
      assert nodes + more == more;
    } else {
      assert (nodes + more)[0] == nodes[0] && (nodes + more)[1..] == nodes[1..] + more;
      WindowKeepsOrder(nodes[1..], more, kinds);
      Append(EdgesOf(nodes[0], kinds), WindowEdges(nodes[1..], kinds), WindowEdges(more, kinds));
    }
  }

  lemma {:induction false} RowKeepsOrder(node: Node, pins: seq<Pin>, more: seq<Pin>, kinds: map<Id, EntityKind>)
    ensures NodeEdges(node, pins + more, kinds) == NodeEdges(node, pins, kinds) + NodeEdges(node, more, kinds)
  {
    if pins == [] {
      assert pins + more == more;
    } else {
      assert (pins + more)[0] == pins[0] && (pins + more)[1..] == pins[1..] + more;
      RowKeepsOrder(node, pins[1..], more, kinds);
      var first := if Shows(pins[0], kinds) then [WindowEdge(node, pins[0], kinds)] else [];
      Append(first, NodeEdges(node, pins[1..], kinds), NodeEdges(node, more, kinds));
    }
  }

  function EdgesOf(node: Node, kinds: map<Id, EntityKind>): seq<Edge> {
    NodeEdges(node, PinsOf(node), kinds)
  }

  /** A row's origins come first, then its references, its Goal references and what guides it. */
  lemma RowInOrder(node: Node, kinds: map<Id, EntityKind>)
    ensures EdgesOf(node, kinds) ==
            EdgesOf(node.(refs := [], goalRefs := [], guidedBy := []), kinds)
            + EdgesOf(node.(origins := [], goalRefs := [], guidedBy := []), kinds)
            + EdgesOf(node.(origins := [], refs := [], guidedBy := []), kinds)
            + EdgesOf(node.(origins := [], refs := [], goalRefs := []), kinds)
  {
    var a, b, c, d :=
      MemoryPins(node.origins, Origin), MemoryPins(node.refs, Reference), GoalPins(node.goalRefs), GoalPins(node.guidedBy);
    OnlyTheRowsNameMatters(node, node.(refs := [], goalRefs := [], guidedBy := []), a, kinds);
    OnlyTheRowsNameMatters(node, node.(origins := [], goalRefs := [], guidedBy := []), b, kinds);
    OnlyTheRowsNameMatters(node, node.(origins := [], refs := [], guidedBy := []), c, kinds);
    OnlyTheRowsNameMatters(node, node.(origins := [], refs := [], goalRefs := []), d, kinds);
    RowKeepsOrder(node, a + b + c, d, kinds);
    RowKeepsOrder(node, a + b, c, kinds);
    RowKeepsOrder(node, a, b, kinds);
  }

  lemma {:induction false} OnlyTheRowsNameMatters(node: Node, part: Node, pins: seq<Pin>, kinds: map<Id, EntityKind>)
    requires part.id == node.id && part.kind == node.kind && PinsOf(part) == pins
    ensures EdgesOf(part, kinds) == NodeEdges(node, pins, kinds)
  {
    SameName(node, part, pins, kinds);
  }

  lemma {:induction false} SameName(node: Node, part: Node, pins: seq<Pin>, kinds: map<Id, EntityKind>)
    requires part.id == node.id && part.kind == node.kind
    ensures NodeEdges(part, pins, kinds) == NodeEdges(node, pins, kinds)
  {
    if pins != [] {
      SameName(node, part, pins[1..], kinds);
    }
  }

  /** The loop over one row's pins, which stops once the cap is reached after a push. */
  method PushEdges(node: Node, kinds: map<Id, EntityKind>, before: seq<Edge>, cap: nat)
    returns (edges: seq<Edge>, full: bool)
    requires |before| < cap || before == []
    ensures edges <= before + NodeEdges(node, PinsOf(node), kinds)
    ensures full <==> edges != before && |edges| >= cap
    ensures full ==> |edges| == if cap == 0 then 1 else cap
    ensures !full ==> edges == before + NodeEdges(node, PinsOf(node), kinds) && (|edges| < cap || edges == [])
  {
    edges := before;
    var pins := PinsOf(node);
    ghost var all := before + NodeEdges(node, pins, kinds);
    var k := 0;
    while k < |pins|
      invariant 0 <= k <= |pins|
      invariant edges + NodeEdges(node, pins[k..], kinds) == all
      invariant before <= edges && (|edges| < cap || (edges == [] && before == []))
    {
      ghost var rest := NodeEdges(node, pins[k + 1..], kinds);
      assert pins[k..][0] == pins[k] && pins[k..][1..] == pins[k + 1..];
      if Shows(pins[k], kinds) {
        var edge := WindowEdge(node, pins[k], kinds);
        assert edges + ([edge] + rest) == (edges + [edge]) + rest;
        edges := edges + [edge];
        if |edges| >= cap {
          return edges, true;
        }
      } else {
        assert [] + rest == rest;
      }
      k := k + 1;
    }
    return edges, false;
  }

  lemma NextRow(nodes: seq<Node>, kinds: map<Id, EntityKind>, i: nat, edges: seq<Edge>)
    requires i < |nodes|
    ensures edges + WindowEdges(nodes[i..], kinds) ==
            (edges + NodeEdges(nodes[i], PinsOf(nodes[i]), kinds)) + WindowEdges(nodes[i + 1..], kinds)
  {
    assert nodes[i..][0] == nodes[i] && nodes[i..][1..] == nodes[i + 1..];
  }

  /** The first `most` elements of a list. */
  function First(edges: seq<Edge>, most: nat): seq<Edge> {
    if |edges| <= most then edges else edges[..most]
  }

  lemma PrefixIsFirst(edges: seq<Edge>, rest: seq<Edge>, longer: seq<Edge>)
    requires edges <= longer
    ensures edges == First(longer + rest, |edges|)
  {
  }

  /** The window projection is the first `max(cap, 1)` edges of the uncapped list. */
  method ProjectWindowEdges(nodes: seq<Node>, cap: nat) returns (edges: seq<Edge>)
    ensures edges == First(WindowEdges(nodes, Kinds(nodes)), if cap == 0 then 1 else cap)
  {
    var kinds := Kinds(nodes);
    ghost var all := WindowEdges(nodes, kinds);
    edges := [];
    var i := 0;
    assert nodes[0..] == nodes;
    while i < |nodes|
      invariant 0 <= i <= |nodes|
      invariant edges + WindowEdges(nodes[i..], kinds) == all
      invariant |edges| < cap || edges == []
    {
      ghost var longer := edges + NodeEdges(nodes[i], PinsOf(nodes[i]), kinds);
      NextRow(nodes, kinds, i, edges);
      var full;
      edges, full := PushEdges(nodes[i], kinds, edges, cap);
      if full {
        PrefixIsFirst(edges, WindowEdges(nodes[i + 1..], kinds), longer);
        return;
      }
      i := i + 1;
    }
    assert WindowEdges(nodes[i..], kinds) == [];
  }
}
