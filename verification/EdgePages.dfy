/**
  Listing a row's edges page by page: expand the rows to hops, sort newest first, resume
  below the cursor, cut to the limit, and project each hop for the reader.
 */
module EdgePages {
  import opened Wrappers
  import opened Pins
  import opened Lists

  datatype Hop = Hop(source: Id, sourceKind: EntityKind, target: Target, kind: EdgeKind)

  function Leaving(source: Id, sourceKind: EntityKind): Pin -> Hop {
    (pin: Pin) => Hop(source, sourceKind, pin.target, pin.kind)
  }

  function HopsOf(node: Node): seq<Hop> {
    Map(Leaving(node.id, node.kind), PinsOf(node))
  }

  function ExpandHops(nodes: seq<Node>): seq<Hop> {
    if nodes == [] then [] else HopsOf(nodes[0]) + ExpandHops(nodes[1..])
  }

  /** A small id, for examples. */
  function Early(n: nat): Id {
    Id(0, n)
  }

  // ---- what a reader sees of a hop ----------------------------------------------------

  /** The live rows the reader may see, by kind, and the forgotten ones it could have seen. */
  datatype Seen = Seen(live: map<Id, EntityKind>, forgotten: set<Id>)

  function ProjectListedEdge(sourceKind: EntityKind, source: Id, target: Id, kind: EdgeKind, live: map<Id, EntityKind>): Edge {
    var end := if target in live then Visible(MemoryEnd(live[target], target)) else Redacted;
    Edge(MemoryEnd(sourceKind, source), end, kind, CreatedAt(source))
  }

  function ProjectHop(hop: Hop, seen: Seen): Edge {
    match hop.target
    case MemoryTarget(target) =>
      var edge := ProjectListedEdge(hop.sourceKind, hop.source, target, hop.kind, seen.live);
      if edge.target.Redacted? && target in seen.forgotten then edge.(target := Forgotten) else edge
    case GoalTarget(goal) =>
      Edge(MemoryEnd(hop.sourceKind, hop.source), Visible(GoalEnd(goal)), hop.kind, CreatedAt(hop.source))
  }

  function Projecting(seen: Seen): Hop -> Edge {
    (hop: Hop) => ProjectHop(hop, seen)
  }

  /** An edge to a memory that is neither live nor forgotten for the reader says nothing about it. */
  lemma {:induction false} UnreadableTargetsLookAlike(hop: Hop, target: Id, other: Id, seen: Seen)
    requires target !in seen.live && target !in seen.forgotten && other !in seen.live && other !in seen.forgotten
    ensures ProjectHop(hop.(target := MemoryTarget(target)), seen) == ProjectHop(hop.(target := MemoryTarget(other)), seen)
    ensures ProjectHop(hop.(target := MemoryTarget(target)), seen).target == Redacted
  {
  }

  /** What a hop shows, field by field. */
  lemma {:induction false} HopShows(hop: Hop, seen: Seen)
    ensures var edge, id := ProjectHop(hop, seen), hop.target.id;
            && edge.source == MemoryEnd(hop.sourceKind, hop.source)
            && edge.createdAt == hop.source.millis && edge.kind == hop.kind
            && edge.target == if hop.target.GoalTarget? then Visible(GoalEnd(id))
                              else if id in seen.live then Visible(MemoryEnd(seen.live[id], id))
                              else if id in seen.forgotten then Forgotten else Redacted
  {
  }

  lemma {:induction false} HopIn(node: Node, hop: Hop)
    ensures hop in HopsOf(node) <==>
            hop.source == node.id && hop.sourceKind == node.kind && Pin(hop.target, hop.kind) in PinsOf(node)
  {
    var pins := PinsOf(node);
    assert forall k :: 0 <= k < |pins| ==> HopsOf(node)[k] == Hop(node.id, node.kind, pins[k].target, pins[k].kind);
    if Pin(hop.target, hop.kind) in pins && hop.source == node.id && hop.sourceKind == node.kind {
      var k :| 0 <= k < |pins| && pins[k] == Pin(hop.target, hop.kind);
      assert HopsOf(node)[k] == hop;
    }
  }

  /** The hop leaves this row along one of its pins. */
  predicate Pinned(node: Node, hop: Hop) {
    && hop.source == node.id && hop.sourceKind == node.kind
    && match hop.target
       case MemoryTarget(id) => id in (if hop.kind.Origin? then node.origins else node.refs)
       case GoalTarget(goal) => hop.kind.Reference? && (goal in node.goalRefs || goal in node.guidedBy)
  }

  /** The hops of the rows are their pins, no more and no fewer. */
  lemma {:induction false} HopsAreThePins(nodes: seq<Node>, hop: Hop)
    ensures hop in ExpandHops(nodes) <==> exists i :: 0 <= i < |nodes| && Pinned(nodes[i], hop)
  {
    if nodes != [] {
      HopIn(nodes[0], hop);
      PinIn(nodes[0], Pin(hop.target, hop.kind));
      HopsAreThePins(nodes[1..], hop);
      assert forall i :: 0 < i < |nodes| ==> nodes[1..][i - 1] == nodes[i];
      assert hop in ExpandHops(nodes) <==> hop in HopsOf(nodes[0]) || hop in ExpandHops(nodes[1..]);
    }
  }

  // ---- two rows that a reader cannot tell apart ---------------------------------------

  function Goals(node: Node): seq<Id> {
    node.goalRefs + node.guidedBy
  }

  /**
    Two stored rows that differ only in how targets the reader may not see are typed: the same
    ids are referred to, and the Goals the reader may see are the same.
   */
  ghost predicate SameToTheReader(p: Node, q: Node, visible: set<Id>) {
    && p.id == q.id && p.kind == q.kind && multiset(p.origins) == multiset(q.origins)
    && multiset(p.refs + Goals(p)) == multiset(q.refs + Goals(q))
    && multiset(Kept(p.goalRefs, visible) + Kept(p.guidedBy, visible)) ==
       multiset(Kept(q.goalRefs, visible) + Kept(q.guidedBy, visible))
  }

  /** Storing one target the reader may not see as a reference instead of a Goal gives such a row. */
  lemma {:induction false} OneTargetRetyped(node: Node, i: nat, visible: set<Id>)
    requires i < |node.goalRefs| && node.goalRefs[i] !in visible
    ensures var g := node.goalRefs;
            SameToTheReader(node, node.(refs := node.refs + [g[i]], goalRefs := g[..i] + g[i + 1..]), visible)
  {
    var g := node.goalRefs;
    Without(g, i);
    KeptWithout(g, i, visible);
  }

  lemma {:induction false} KeptWithout(goals: seq<Id>, i: nat, visible: set<Id>)
    requires i < |goals| && goals[i] !in visible
    ensures Kept(goals, visible) == Kept(goals[..i] + goals[i + 1..], visible)
  {
    var front, back := goals[..i], goals[i + 1..];
    assert goals == front + [goals[i]] + back;
    KeptOfConcat(front + [goals[i]], back, visible);
    assert (front + [goals[i]])[..i] == front;
    KeptOfConcat(front, back, visible);
  }

  lemma {:induction false} KeptOfConcat(a: seq<Id>, b: seq<Id>, visible: set<Id>)
    ensures Kept(a + b, visible) == Kept(a, visible) + Kept(b, visible)
  {
    if b == [] {
      assert a + b == a;
    } else {
      KeptOfConcat(a, b[..|b| - 1], visible);
      assert (a + b)[..|a + b| - 1] == a + b[..|b| - 1];
    }
  }

  lemma {:induction false} SameReferences(p: Node, q: Node, visible: set<Id>)
    requires SameToTheReader(p, q, visible)
    ensures multiset(Resolved(p, visible).refs) == multiset(Resolved(q, visible).refs)
    ensures multiset(Goals(Resolved(p, visible))) == multiset(Goals(Resolved(q, visible)))
  {
    ReferencesAndGoals(p, visible);
    ReferencesAndGoals(q, visible);
    Cancel(multiset(Resolved(p, visible).refs), multiset(Resolved(q, visible).refs),
           multiset(Kept(p.goalRefs, visible) + Kept(p.guidedBy, visible)));
  }

  lemma {:induction false} Cancel(a: multiset<Id>, b: multiset<Id>, k: multiset<Id>)
    requires a + k == b + k
    ensures a == b
  {
    forall id: Id ensures a[id] == b[id] {
      assert (a + k)[id] == a[id] + k[id] && (b + k)[id] == b[id] + k[id];
    }
  }

  lemma {:induction false} ReferencesAndGoals(node: Node, visible: set<Id>)
    ensures multiset(Resolved(node, visible).refs) + multiset(Kept(node.goalRefs, visible) + Kept(node.guidedBy, visible)) ==
            multiset(node.refs + Goals(node))
  {
    KeptAndHidden(node.goalRefs, visible);
    KeptAndHidden(node.guidedBy, visible);
  }

  function ToMemory(kind: EdgeKind): Id -> Pin {
    (id: Id) => Pin(MemoryTarget(id), kind)
  }

  function ToGoal(): Id -> Pin {
    (id: Id) => Pin(GoalTarget(id), Reference)
  }

  lemma {:induction false} PinsAreMapped(node: Node)
    ensures PinsOf(node) == Map(ToMemory(Origin), node.origins) + Map(ToMemory(Reference), node.refs) + Map(ToGoal(), Goals(node))
  {
  }

  /** After resolving, two such rows expand to the same hops, up to order. */
  lemma {:induction false} SameHops(p: Node, q: Node, visible: set<Id>)
    requires SameToTheReader(p, q, visible)
    ensures multiset(HopsOf(Resolved(p, visible))) == multiset(HopsOf(Resolved(q, visible)))
  {
    var rp, rq := Resolved(p, visible), Resolved(q, visible);
    SameReferences(p, q, visible);
    MapKeepsMultisets(ToMemory(Origin), rp.origins, rq.origins);
    MapKeepsMultisets(ToMemory(Reference), rp.refs, rq.refs);
    MapKeepsMultisets(ToGoal(), Goals(rp), Goals(rq));
    PinsAreMapped(rp);
    PinsAreMapped(rq);
    MapKeepsMultisets(Leaving(p.id, p.kind), PinsOf(rp), PinsOf(rq));
  }

  function ResolveAll(nodes: seq<Node>, visible: set<Id>): seq<Node> {
    if nodes == [] then [] else [Resolved(nodes[0], visible)] + ResolveAll(nodes[1..], visible)
  }

  lemma {:induction false} SameExpansion(ps: seq<Node>, qs: seq<Node>, visible: set<Id>)
    requires |ps| == |qs| && forall i :: 0 <= i < |ps| ==> SameToTheReader(ps[i], qs[i], visible)
    ensures multiset(ExpandHops(ResolveAll(ps, visible))) == multiset(ExpandHops(ResolveAll(qs, visible)))
  {
    if ps != [] {
      SameHops(ps[0], qs[0], visible);
      SameExpansion(ps[1..], qs[1..], visible);
      assert ResolveAll(ps, visible)[1..] == ResolveAll(ps[1..], visible);
      assert ResolveAll(qs, visible)[1..] == ResolveAll(qs[1..], visible);
    }
  }

  /** A reader is shown the same edges of rows that differ only in how unreadable targets are typed. */
  lemma {:induction false} RetypingIsInvisible(ps: seq<Node>, qs: seq<Node>, visible: set<Id>, keep: Hop -> bool, seen: Seen)
    requires |ps| == |qs| && forall i :: 0 <= i < |ps| ==> SameToTheReader(ps[i], qs[i], visible)
    ensures multiset(Map(Projecting(seen), Filter(keep, ExpandHops(ResolveAll(ps, visible))))) ==
            multiset(Map(Projecting(seen), Filter(keep, ExpandHops(ResolveAll(qs, visible)))))
  {
    SameExpansion(ps, qs, visible);
    var p, q := ExpandHops(ResolveAll(ps, visible)), ExpandHops(ResolveAll(qs, visible));
    FilterKeepsMultisets(keep, p, q);
    MapKeepsMultisets(Projecting(seen), Filter(keep, p), Filter(keep, q));
  }

  // ---- newest first -------------------------------------------------------------------

  datatype Key = Key(createdAt: nat, source: Id, target: Id, kind: nat) {
    predicate Less(other: Key) {
      if createdAt != other.createdAt then createdAt < other.createdAt
      else if source != other.source then source.Before(other.source)
      else if target != other.target then target.Before(other.target)
      else kind < other.kind
    }
  }

  /** Kinds compare by their labels, and "origin" comes before "reference". */
  function KeyOf(hop: Hop): Key {
    Key(CreatedAt(hop.source), hop.source, hop.target.id, if hop.kind.Origin? then 0 else 1)
  }

  /** Newest first: no hop comes before one with a greater key. */
  ghost predicate Sorted(hops: seq<Hop>) {
    forall i, j :: 0 <= i < j < |hops| ==> !KeyOf(hops[i]).Less(KeyOf(hops[j]))
  }

  ghost predicate SortOf(sorted: seq<Hop>, hops: seq<Hop>) {
    Sorted(sorted) && multiset(sorted) == multiset(hops)
  }

  /** Nothing before `at` has a smaller key than the hop, nothing from `at` on a greater one. */
  ghost predicate FitsAt(sorted: seq<Hop>, hop: Hop, at: nat) {
    && at <= |sorted|
    && (forall i :: 0 <= i < at ==> !KeyOf(sorted[i]).Less(KeyOf(hop)))
    && (forall i :: at <= i < |sorted| ==> !KeyOf(hop).Less(KeyOf(sorted[i])))
  }

  /** Where a hop goes in a sorted list: before the first hop with a smaller key. */
  function Place(sorted: seq<Hop>, hop: Hop): (at: nat)
    ensures at <= |sorted|
  {
    if sorted == [] || KeyOf(sorted[0]).Less(KeyOf(hop)) then 0 else 1 + Place(sorted[1..], hop)
  }

  lemma {:induction false} PlaceFits(sorted: seq<Hop>, hop: Hop)
    requires Sorted(sorted)
    ensures FitsAt(sorted, hop, Place(sorted, hop))
  {
    if sorted != [] {
      if KeyOf(sorted[0]).Less(KeyOf(hop)) {
        forall i | 0 <= i < |sorted| ensures !KeyOf(hop).Less(KeyOf(sorted[i])) {
          assert i > 0 ==> !KeyOf(sorted[0]).Less(KeyOf(sorted[i]));
        }
      } else {
        PlaceFits(sorted[1..], hop);
        var at := Place(sorted[1..], hop);
        forall i | 0 <= i < at + 1 ensures !KeyOf(sorted[i]).Less(KeyOf(hop)) {
          assert i > 0 ==> sorted[i] == sorted[1..][i - 1];
        }
        forall i | at + 1 <= i < |sorted| ensures !KeyOf(hop).Less(KeyOf(sorted[i])) {
          assert sorted[i] == sorted[1..][i - 1];
        }
      }
    }
  }

  method SortHops(hops: seq<Hop>) returns (sorted: seq<Hop>)
    ensures SortOf(sorted, hops)
  {
    sorted := [];
    var i := 0;
    while i < |hops|
      invariant 0 <= i <= |hops|
      invariant SortOf(sorted, hops[..i])
    {
      InsertNext(sorted, hops, i);
      sorted := Inserted(sorted, Place(sorted, hops[i]), hops[i]);
      i := i + 1;
    }
    assert hops[..i] == hops;
  }

  lemma {:induction false} InsertSorts(sorted: seq<Hop>, hop: Hop, at: nat)
    requires Sorted(sorted) && FitsAt(sorted, hop, at)
    ensures Sorted(Inserted(sorted, at, hop))
    ensures multiset(Inserted(sorted, at, hop)) == multiset(sorted) + multiset{hop}
  {
    assert sorted == sorted[..at] + sorted[at..];
    var longer := Inserted(sorted, at, hop);
    forall i, j | 0 <= i < j < |longer| ensures !KeyOf(longer[i]).Less(KeyOf(longer[j])) {
      if i < at {
        assert longer[i] == sorted[i];
      }
      if j > at {
        assert longer[j] == sorted[j - 1];
      }
      if i > at {
        assert longer[i] == sorted[i - 1];
      }
      if j < at {
        assert longer[j] == sorted[j];
      }
    }
  }

  lemma {:induction false} InsertNext(sorted: seq<Hop>, hops: seq<Hop>, i: nat)
    requires i < |hops| && SortOf(sorted, hops[..i])
    ensures SortOf(Inserted(sorted, Place(sorted, hops[i]), hops[i]), hops[..i + 1])
  {
    PlaceFits(sorted, hops[i]);
    InsertSorts(sorted, hops[i], Place(sorted, hops[i]));
    assert hops[..i + 1] == hops[..i] + [hops[i]];
  }

  lemma {:induction false} SortExists(hops: seq<Hop>) returns (sorted: seq<Hop>)
    ensures SortOf(sorted, hops)
  {
    if hops == [] {
      return [];
    }
    var n := |hops| - 1;
    var before := SortExists(hops[..n]);
    InsertNext(before, hops, n);
    assert hops[..n + 1] == hops;
    sorted := Inserted(before, Place(before, hops[n]), hops[n]);
  }

  /** Later source first, a tie of ids and times going on to the target and then to references before origins. */
  lemma {:induction false} ListedNewestFirst(sorted: seq<Hop>, i: nat, j: nat)
    requires Sorted(sorted) && i < j < |sorted|
    ensures var a, b := sorted[i], sorted[j];
            || a.source.millis > b.source.millis
            || (a.source.millis == b.source.millis && a.source.tail > b.source.tail)
            || (a.source == b.source && a.target.id.millis > b.target.id.millis)
            || (a.source == b.source && a.target.id.millis == b.target.id.millis && a.target.id.tail > b.target.id.tail)
            || (a.source == b.source && a.target.id == b.target.id && (a.kind.Reference? || b.kind.Origin?))
  {
    assert !KeyOf(sorted[i]).Less(KeyOf(sorted[j]));
  }

  // ---- one page -----------------------------------------------------------------------

  /** A cursor names the last edge of a page; its source and target are typed entities. */
  datatype Cursor = Cursor(createdAt: nat, source: Target, target: Target, kind: EdgeKind)
  datatype Response = Response(edges: seq<Edge>, next: Option<Cursor>)

  function CursorAt(hop: Hop): Cursor {
    Cursor(CreatedAt(hop.source), MemoryTarget(hop.source), hop.target, hop.kind)
  }

  /** A cursor whose source is not a memory cuts nothing. */
  function CursorKey(cursor: Cursor): Option<Key> {
    if cursor.source.GoalTarget? then None
    else Some(Key(cursor.createdAt, cursor.source.id, cursor.target.id, if cursor.kind.Origin? then 0 else 1))
  }

  function Below(key: Key): Hop -> bool {
    (hop: Hop) => KeyOf(hop).Less(key)
  }

  /** What is left of a sorted list below a cursor. */
  function Remaining(sorted: seq<Hop>, cursor: Option<Cursor>): seq<Hop> {
    if cursor.None? || CursorKey(cursor.value).None? then sorted
    else Filter(Below(CursorKey(cursor.value).value), sorted)
  }

  /** One page of a sorted list. A read with limit 0 is answered before any paging. */
  function Respond(sorted: seq<Hop>, cursor: Option<Cursor>, limit: nat, seen: Seen): Response {
    var rest := Remaining(sorted, cursor);
    if limit == 0 then Response([], None)
    else if |rest| <= limit then Response(Map(Projecting(seen), rest), None)
    else Response(Map(Projecting(seen), rest[..limit]), Some(CursorAt(rest[limit - 1])))
  }

  method PageHops(hops: seq<Hop>, cursor: Option<Cursor>, limit: nat, seen: Seen) returns (response: Response)
    ensures exists sorted :: SortOf(sorted, hops) && response == Respond(sorted, cursor, limit, seen)
  {
    var sorted := SortHops(hops);
    response := Respond(sorted, cursor, limit, seen);
  }

  /** A page shows what is left up to the limit, and goes on exactly when more is left, from the last hop it shows. */
  lemma {:induction false} PageShows(sorted: seq<Hop>, cursor: Option<Cursor>, limit: nat, seen: Seen)
    requires limit > 0
    ensures var rest, page := Remaining(sorted, cursor), Respond(sorted, cursor, limit, seen);
            && |page.edges| == (if |rest| <= limit then |rest| else limit)
            && (forall i :: 0 <= i < |page.edges| ==> page.edges[i] == ProjectHop(rest[i], seen))
            && (page.next.Some? <==> |rest| > limit)
            && (page.next.Some? ==>
                  var last := rest[limit - 1];
                  page.next.value == Cursor(last.source.millis, MemoryTarget(last.source), last.target, last.kind))
  {
  }

  // ---- the order of a page is fixed ---------------------------------------------------

  ghost predicate SortedKeys(keys: seq<Key>) {
    forall i, j :: 0 <= i < j < |keys| ==> !keys[i].Less(keys[j])
  }

  lemma {:induction false} KeysAreTotal(a: Key, b: Key)
    ensures !a.Less(b) && !b.Less(a) ==> a == b
  {
  }

  lemma {:induction false} FirstKeyIsGreatest(keys: seq<Key>, key: Key)
    requires SortedKeys(keys) && key in multiset(keys)
    ensures keys != [] && !keys[0].Less(key)
  {
    var j :| 0 <= j < |keys| && keys[j] == key;
  }

  lemma {:induction false} SameTail(a: seq<Key>, b: seq<Key>)
    requires multiset(a) == multiset(b) && a != [] && b != [] && a[0] == b[0]
    ensures multiset(a[1..]) == multiset(b[1..])
  {
    assert a == [a[0]] + a[1..] && b == [b[0]] + b[1..];
    assert multiset(a[1..]) == multiset(a) - multiset{a[0]};
    assert multiset(b[1..]) == multiset(b) - multiset{b[0]};
  }

  lemma {:induction false} SortedKeysAreUnique(a: seq<Key>, b: seq<Key>)
    requires SortedKeys(a) && SortedKeys(b) && multiset(a) == multiset(b)
    ensures a == b
  {
    if a == [] {
      assert |b| == |multiset(b)|;
    } else {
      assert a[0] in multiset(b);
      FirstKeyIsGreatest(b, a[0]);
      assert b[0] in multiset(a);
      FirstKeyIsGreatest(a, b[0]);
      KeysAreTotal(a[0], b[0]);
      SameTail(a, b);
      SortedKeysAreUnique(a[1..], b[1..]);
      assert a == [a[0]] + a[1..] && b == [b[0]] + b[1..];
    }
  }

  /** Equal keys mean equal hops: no id is referred to both as a memory and as a Goal. */
  ghost predicate KeysIdentify(hops: seq<Hop>) {
    forall i, j :: 0 <= i < |hops| && 0 <= j < |hops| && KeyOf(hops[i]) == KeyOf(hops[j]) ==> hops[i] == hops[j]
  }

  /** Any two sorts of the same hops have the same keys in the same places, and are equal where keys identify hops. */
  lemma {:induction false} SortIsUnique(hops: seq<Hop>, a: seq<Hop>, b: seq<Hop>)
    requires SortOf(a, hops) && SortOf(b, hops)
    ensures Map(KeyOf, a) == Map(KeyOf, b)
    ensures KeysIdentify(hops) ==> a == b
  {
    MapKeepsMultisets(KeyOf, a, b);
    SortedKeysAreUnique(Map(KeyOf, a), Map(KeyOf, b));
    assert |a| == |Map(KeyOf, a)| && |b| == |Map(KeyOf, b)|;
    if KeysIdentify(hops) {
      forall i | 0 <= i < |a| ensures a[i] == b[i] {
        assert KeyOf(a[i]) == Map(KeyOf, a)[i] == Map(KeyOf, b)[i] == KeyOf(b[i]);
        assert a[i] in multiset(hops) && b[i] in multiset(hops);
      }
    }
  }

  lemma {:induction false} FilterByKey(a: seq<Hop>, b: seq<Hop>, key: Key)
    requires Map(KeyOf, a) == Map(KeyOf, b)
    ensures Map(KeyOf, Filter(Below(key), a)) == Map(KeyOf, Filter(Below(key), b))
  {
    assert |a| == |Map(KeyOf, a)| && |b| == |Map(KeyOf, b)|;
    if a != [] {
      assert KeyOf(a[0]) == Map(KeyOf, a)[0] == Map(KeyOf, b)[0] == KeyOf(b[0]);
      assert Map(KeyOf, a[1..]) == Map(KeyOf, a)[1..] == Map(KeyOf, b)[1..] == Map(KeyOf, b[1..]);
      FilterByKey(a[1..], b[1..], key);
      MapOfConcat(KeyOf, [a[0]], Filter(Below(key), a[1..]));
      MapOfConcat(KeyOf, [b[0]], Filter(Below(key), b[1..]));
    }
  }

  /** Lists with the same keys in the same places give pages of the same length that resume at the same key. */
  lemma {:induction false} SameKeysSamePlaces(a: seq<Hop>, b: seq<Hop>, cursor: Option<Cursor>, limit: nat, seen: Seen)
    requires Map(KeyOf, a) == Map(KeyOf, b)
    ensures var x, y := Respond(a, cursor, limit, seen), Respond(b, cursor, limit, seen);
            && |x.edges| == |y.edges| && (x.next.Some? <==> y.next.Some?)
            && (x.next.Some? ==> CursorKey(x.next.value) == CursorKey(y.next.value))
  {
    if cursor.Some? && CursorKey(cursor.value).Some? {
      FilterByKey(a, b, CursorKey(cursor.value).value);
    }
    var ra, rb := Remaining(a, cursor), Remaining(b, cursor);
    assert |ra| == |Map(KeyOf, ra)| && |rb| == |Map(KeyOf, rb)|;
    if 0 < limit < |ra| {
      assert KeyOf(ra[limit - 1]) == Map(KeyOf, ra)[limit - 1] == KeyOf(rb[limit - 1]);
    }
  }

  // ---- what a listing tells of withheld targets ---------------------------------------

  predicate IsRedacted(target: Target, seen: Seen) {
    target.MemoryTarget? && target.id !in seen.live && target.id !in seen.forgotten
  }

  predicate IsForgotten(target: Target, seen: Seen) {
    target.MemoryTarget? && target.id !in seen.live && target.id in seen.forgotten
  }

  /** The same hop, or the same pin of another target that is withheld in the same way. */
  predicate LooksLike(a: Hop, b: Hop, seen: Seen) {
    && a == b.(target := a.target)
    && (|| a.target == b.target
        || (IsRedacted(a.target, seen) && IsRedacted(b.target, seen))
        || (IsForgotten(a.target, seen) && IsForgotten(b.target, seen)))
  }

  /** Hops show the same edge exactly when they look alike. */
  lemma {:induction false} LooksLikeExactly(a: Hop, b: Hop, seen: Seen)
    ensures LooksLike(a, b, seen) <==> ProjectHop(a, seen) == ProjectHop(b, seen)
  {
  }

  function Listing(sorted: seq<Hop>, seen: Seen): seq<Edge> {
    Map(Projecting(seen), sorted)
  }

  /** Lists show the same edges exactly when they look alike place by place. */
  lemma {:induction false} ListingsAgreeExactly(a: seq<Hop>, b: seq<Hop>, seen: Seen)
    ensures Listing(a, seen) == Listing(b, seen) <==>
            |a| == |b| && forall i :: 0 <= i < |a| ==> LooksLike(a[i], b[i], seen)
  {
    forall i | 0 <= i < |a| && i < |b|
      ensures Listing(a, seen)[i] == Listing(b, seen)[i] <==> LooksLike(a[i], b[i], seen)
    {
      LooksLikeExactly(a[i], b[i], seen);
    }
    assert |Listing(a, seen)| == |a| && |Listing(b, seen)| == |b|;
    if |a| == |b| && forall i :: 0 <= i < |a| ==> LooksLike(a[i], b[i], seen) {
      assert forall i :: 0 <= i < |a| ==> Listing(a, seen)[i] == Listing(b, seen)[i];
    }
  }

  /** Hops with equal keys show the same edge. */
  ghost predicate TiesLookAlike(hops: seq<Hop>, seen: Seen) {
    forall i, j :: 0 <= i < |hops| && 0 <= j < |hops| && KeyOf(hops[i]) == KeyOf(hops[j]) ==>
                     LooksLike(hops[i], hops[j], seen)
  }

  /** Two hops with one key can be sorted either way round. */
  lemma {:induction false} TieCanSwap(hops: seq<Hop>, i: nat, j: nat) returns (a: seq<Hop>, b: seq<Hop>, k: nat)
    requires i < j < |hops| && KeyOf(hops[i]) == KeyOf(hops[j])
    ensures SortOf(a, hops) && SortOf(b, hops) && k < |a| && k < |b| && a[k] == hops[i] && b[k] == hops[j]
  {
    var x, y := hops[i], hops[j];
    var rest := SortExists(hops[..i] + hops[i + 1..j] + hops[j + 1..]);
    k := Place(rest, x);
    PlaceFits(rest, x);
    WithoutTwo(hops, i, j);
    FitsLikeItsTie(rest, x, y, k);
    InsertTwiceSorts(rest, x, y, k, hops);
    InsertTwiceSorts(rest, y, x, k, hops);
    a, b := InsertTwice(rest, x, y, k), InsertTwice(rest, y, x, k);
  }

  lemma {:induction false} WithoutTwo(hops: seq<Hop>, i: nat, j: nat)
    requires i < j < |hops|
    ensures multiset(hops) == multiset(hops[..i] + hops[i + 1..j] + hops[j + 1..]) + multiset{hops[i], hops[j]}
  {
    assert hops == hops[..i] + [hops[i]] + hops[i + 1..j] + [hops[j]] + hops[j + 1..];
  }

  function InsertTwice(rest: seq<Hop>, first: Hop, second: Hop, at: nat): seq<Hop>
    requires at <= |rest|
  {
    Inserted(Inserted(rest, at, second), at, first)
  }

  lemma {:induction false} InsertTwiceSorts(rest: seq<Hop>, first: Hop, second: Hop, at: nat, hops: seq<Hop>)
    requires Sorted(rest) && FitsAt(rest, first, at) && KeyOf(first) == KeyOf(second)
    requires multiset(hops) == multiset(rest) + multiset{first, second}
    ensures var twice := InsertTwice(rest, first, second, at); SortOf(twice, hops) && twice[at] == first
  {
    FitsLikeItsTie(rest, first, second, at);
    InsertSorts(rest, second, at);
    FitsBeforeItsTie(rest, first, second, at);
    InsertSorts(Inserted(rest, at, second), first, at);
  }

  lemma {:induction false} FitsLikeItsTie(rest: seq<Hop>, first: Hop, second: Hop, at: nat)
    requires FitsAt(rest, first, at) && KeyOf(first) == KeyOf(second)
    ensures FitsAt(rest, second, at)
  {
  }

  lemma {:induction false} FitsBeforeItsTie(rest: seq<Hop>, first: Hop, second: Hop, at: nat)
    requires FitsAt(rest, first, at) && KeyOf(first) == KeyOf(second)
    ensures FitsAt(Inserted(rest, at, second), first, at)
  {
    var once := Inserted(rest, at, second);
    forall i | at <= i < |once| ensures !KeyOf(first).Less(KeyOf(once[i])) {
      assert i > at ==> once[i] == rest[i - 1];
    }
  }

  /** All sorts of some hops give one listing exactly when ties look alike. */
  lemma {:induction false} ListingIsDetermined(hops: seq<Hop>, seen: Seen)
    ensures (forall a, b :: SortOf(a, hops) && SortOf(b, hops) ==> Listing(a, seen) == Listing(b, seen)) <==>
            TiesLookAlike(hops, seen)
  {
    if TiesLookAlike(hops, seen) {
      forall a, b | SortOf(a, hops) && SortOf(b, hops) ensures Listing(a, seen) == Listing(b, seen) {
        ListingsOfTies(hops, a, b, seen);
      }
    } else {
      var i, j :| && 0 <= i < |hops| && 0 <= j < |hops| && KeyOf(hops[i]) == KeyOf(hops[j])
                  && !LooksLike(hops[i], hops[j], seen);
      var a, b, k := TieCanSwap(hops, if i < j then i else j, if i < j then j else i);
      ListingsAgreeExactly(a, b, seen);
    }
  }

  lemma {:induction false} ListingsOfTies(hops: seq<Hop>, a: seq<Hop>, b: seq<Hop>, seen: Seen)
    requires TiesLookAlike(hops, seen) && SortOf(a, hops) && SortOf(b, hops)
    ensures Listing(a, seen) == Listing(b, seen)
  {
    SortIsUnique(hops, a, b);
    assert |a| == |Map(KeyOf, a)| && |b| == |Map(KeyOf, b)|;
    forall i | 0 <= i < |a| ensures LooksLike(a[i], b[i], seen) {
      assert KeyOf(a[i]) == Map(KeyOf, a)[i] == Map(KeyOf, b)[i] == KeyOf(b[i]);
      assert a[i] in multiset(hops) && b[i] in multiset(hops);
    }
    ListingsAgreeExactly(a, b, seen);
  }

  /** All sorts of some hops are one list exactly when keys identify them. */
  lemma {:induction false} SortIsDetermined(hops: seq<Hop>)
    ensures (forall a, b :: SortOf(a, hops) && SortOf(b, hops) ==> a == b) <==> KeysIdentify(hops)
  {
    if KeysIdentify(hops) {
      forall a, b | SortOf(a, hops) && SortOf(b, hops) ensures a == b {
        SortIsUnique(hops, a, b);
      }
    } else {
      var i, j :| 0 <= i < |hops| && 0 <= j < |hops| && KeyOf(hops[i]) == KeyOf(hops[j]) && hops[i] != hops[j];
      var a, b, k := TieCanSwap(hops, if i < j then i else j, if i < j then j else i);
    }
  }

  lemma {:induction false} FilterWithin(keep: Hop -> bool, hops: seq<Hop>, k: nat)
    requires k < |Filter(keep, hops)|
    ensures Filter(keep, hops)[k] in hops
  {
    if hops != [] && !(keep(hops[0]) && k == 0) {
      FilterWithin(keep, hops[1..], if keep(hops[0]) then k - 1 else k);
    }
  }

  /** What remains of a sort comes from the hops, at the same keys as in any other sort. */
  lemma {:induction false} RemainingAlike(
    hops: seq<Hop>, a: seq<Hop>, b: seq<Hop>, cursor: Option<Cursor>, seen: Seen)
    requires TiesLookAlike(hops, seen) && SortOf(a, hops) && SortOf(b, hops)
    ensures Listing(Remaining(a, cursor), seen) == Listing(Remaining(b, cursor), seen)
  {
    SortIsUnique(hops, a, b);
    var ra, rb := Remaining(a, cursor), Remaining(b, cursor);
    if cursor.Some? && CursorKey(cursor.value).Some? {
      FilterByKey(a, b, CursorKey(cursor.value).value);
    }
    assert |ra| == |Map(KeyOf, ra)| && |rb| == |Map(KeyOf, rb)|;
    forall i | 0 <= i < |ra| ensures LooksLike(ra[i], rb[i], seen) {
      assert KeyOf(ra[i]) == Map(KeyOf, ra)[i] == Map(KeyOf, rb)[i] == KeyOf(rb[i]);
      RemainingWithin(hops, a, cursor, i);
      RemainingWithin(hops, b, cursor, i);
    }
    ListingsAgreeExactly(ra, rb, seen);
  }

  lemma {:induction false} RemainingWithin(hops: seq<Hop>, sorted: seq<Hop>, cursor: Option<Cursor>, i: nat)
    requires SortOf(sorted, hops) && i < |Remaining(sorted, cursor)|
    ensures Remaining(sorted, cursor)[i] in hops
  {
    if cursor.Some? && CursorKey(cursor.value).Some? {
      FilterWithin(Below(CursorKey(cursor.value).value), sorted, i);
    }
    assert Remaining(sorted, cursor)[i] in multiset(sorted);
  }

  lemma {:induction false} SameListingSameEdges(a: seq<Hop>, b: seq<Hop>, cursor: Option<Cursor>, limit: nat, seen: Seen)
    requires Listing(Remaining(a, cursor), seen) == Listing(Remaining(b, cursor), seen)
    ensures Respond(a, cursor, limit, seen).edges == Respond(b, cursor, limit, seen).edges
  {
    var ra, rb := Remaining(a, cursor), Remaining(b, cursor);
    ListingsAgreeExactly(ra, rb, seen);
    if 0 < limit < |ra| {
      ListingsAgreeExactly(ra[..limit], rb[..limit], seen);
    }
  }

  /**
    A reader asking for any page of rows that differ only in how unreadable targets are typed
    gets as many edges and resumes at the same key; where ties look alike, the same edges; and
    where keys identify hops, the same response, cursor included.
   */
  lemma {:induction false} RetypingKeepsPages(
    ps: seq<Node>, qs: seq<Node>, visible: set<Id>, keep: Hop -> bool, a: seq<Hop>, b: seq<Hop>,
    cursor: Option<Cursor>, limit: nat, seen: Seen)
    requires |ps| == |qs| && forall i :: 0 <= i < |ps| ==> SameToTheReader(ps[i], qs[i], visible)
    requires SortOf(a, Filter(keep, ExpandHops(ResolveAll(ps, visible))))
    requires SortOf(b, Filter(keep, ExpandHops(ResolveAll(qs, visible))))
    ensures var x, y := Respond(a, cursor, limit, seen), Respond(b, cursor, limit, seen);
            && |x.edges| == |y.edges| && (x.next.Some? <==> y.next.Some?)
            && (x.next.Some? ==> CursorKey(x.next.value) == CursorKey(y.next.value))
            && (TiesLookAlike(Filter(keep, ExpandHops(ResolveAll(ps, visible))), seen) ==> x.edges == y.edges)
            && (KeysIdentify(Filter(keep, ExpandHops(ResolveAll(ps, visible)))) ==> x == y)
  {
    var hops := Filter(keep, ExpandHops(ResolveAll(ps, visible)));
    SameExpansion(ps, qs, visible);
    FilterKeepsMultisets(keep, ExpandHops(ResolveAll(ps, visible)), ExpandHops(ResolveAll(qs, visible)));
    SortIsUnique(hops, a, b);
    SameKeysSamePlaces(a, b, cursor, limit, seen);
    if TiesLookAlike(hops, seen) {
      RemainingAlike(hops, a, b, cursor, seen);
      SameListingSameEdges(a, b, cursor, limit, seen);
    }
  }

  /** However they are sorted, the two list the same edges in the same order. */
  ghost predicate Indistinct(p: seq<Hop>, q: seq<Hop>, seen: Seen) {
    forall a, b :: SortOf(a, p) && SortOf(b, q) ==> Listing(a, seen) == Listing(b, seen)
  }

  /** The key of `hop` lies strictly between the other two. */
  predicate Between(hop: Hop, x: Hop, y: Hop) {
    || (KeyOf(x).Less(KeyOf(hop)) && KeyOf(hop).Less(KeyOf(y)))
    || (KeyOf(y).Less(KeyOf(hop)) && KeyOf(hop).Less(KeyOf(x)))
  }

  /** No hop tells by its place which of two hops was among them. */
  ghost predicate NothingBetweenTells(others: seq<Hop>, x: Hop, y: Hop, seen: Seen) {
    forall k :: 0 <= k < |others| && Between(others[k], x, y) ==> LooksLike(others[k], x, seen)
  }

  /** A hop from a place of the sorted list between those of `x` and `y` has a key between theirs, ties included. */
  lemma {:induction false} PlacesAndKeys(rest: seq<Hop>, p: nat, x: Hop, q: nat, y: Hop, k: nat)
    requires Sorted(rest) && FitsAt(rest, x, p) && FitsAt(rest, y, q) && p <= q && k < |rest|
    ensures p <= k < q ==> Between(rest[k], x, y) || KeyOf(rest[k]) == KeyOf(x) || KeyOf(rest[k]) == KeyOf(y)
    ensures Between(rest[k], x, y) ==> p <= k < q
  {
    var key := KeyOf(rest[k]);
    if p <= k < q {
      assert !KeyOf(x).Less(key) && !key.Less(KeyOf(y));
      KeysAreTotal(KeyOf(x), key);
      KeysAreTotal(KeyOf(y), key);
    }
    if k < p {
      assert !key.Less(KeyOf(x)) && !key.Less(KeyOf(y));
    }
    if k >= q {
      assert !KeyOf(x).Less(key) && !KeyOf(y).Less(key);
    }
  }

  /** The two placements list alike exactly when the two hops look alike and nothing between them tells. */
  lemma {:induction false} PlacementsAgreeExactly(rest: seq<Hop>, p: nat, x: Hop, q: nat, y: Hop, seen: Seen)
    requires Sorted(rest) && FitsAt(rest, x, p) && FitsAt(rest, y, q) && p <= q
    requires TiesLookAlike(rest + [x], seen) && TiesLookAlike(rest + [y], seen)
    ensures Listing(Inserted(rest, p, x), seen) == Listing(Inserted(rest, q, y), seen) <==>
            LooksLike(x, y, seen) && NothingBetweenTells(rest, x, y, seen)
  {
    InsertedElsewhere(Projecting(seen), rest, p, x, q, y);
    LooksLikeExactly(x, y, seen);
    forall k | 0 <= k < |rest|
      ensures ProjectHop(rest[k], seen) == ProjectHop(x, seen) <==> LooksLike(rest[k], x, seen)
      ensures ProjectHop(rest[k], seen) == ProjectHop(y, seen) <==> LooksLike(rest[k], y, seen)
    {
      LooksLikeExactly(rest[k], x, seen);
      LooksLikeExactly(rest[k], y, seen);
    }
    forall k | 0 <= k < |rest|
      ensures LooksLike(x, y, seen) && NothingBetweenTells(rest, x, y, seen) && p <= k < q ==> LooksLike(rest[k], x, seen)
      ensures Between(rest[k], x, y) ==> p <= k < q
    {
      PlacesAndKeys(rest, p, x, q, y, k);
      assert (rest + [x])[k] == rest[k] && (rest + [x])[|rest|] == x;
      assert (rest + [y])[k] == rest[k] && (rest + [y])[|rest|] == y;
    }
  }

  lemma {:induction false} NothingBetweenIsSymmetric(others: seq<Hop>, x: Hop, y: Hop, seen: Seen)
    requires LooksLike(x, y, seen)
    ensures LooksLike(y, x, seen)
    ensures NothingBetweenTells(others, x, y, seen) <==> NothingBetweenTells(others, y, x, seen)
  {
    forall k | 0 <= k < |others|
      ensures Between(others[k], x, y) <==> Between(others[k], y, x)
      ensures LooksLike(others[k], x, seen) <==> LooksLike(others[k], y, seen)
    {
    }
  }

  lemma {:induction false} PlacesAgreeExactly(rest: seq<Hop>, x: Hop, y: Hop, seen: Seen)
    requires Sorted(rest) && TiesLookAlike(rest + [x], seen) && TiesLookAlike(rest + [y], seen)
    ensures Listing(Inserted(rest, Place(rest, x), x), seen) == Listing(Inserted(rest, Place(rest, y), y), seen) <==>
            LooksLike(x, y, seen) && NothingBetweenTells(rest, x, y, seen)
  {
    PlaceFits(rest, x);
    PlaceFits(rest, y);
    if Place(rest, x) <= Place(rest, y) {
      PlacementsAgreeExactly(rest, Place(rest, x), x, Place(rest, y), y, seen);
    } else {
      PlacementsAgreeExactly(rest, Place(rest, y), y, Place(rest, x), x, seen);
      if LooksLike(x, y, seen) {
        NothingBetweenIsSymmetric(rest, x, y, seen);
      } else if LooksLike(y, x, seen) {
        NothingBetweenIsSymmetric(rest, y, x, seen);
      }
    }
  }

  lemma {:induction false} SameElementsSameTies(a: seq<Hop>, b: seq<Hop>, seen: Seen)
    requires multiset(a) == multiset(b) && TiesLookAlike(a, seen)
    ensures TiesLookAlike(b, seen)
  {
    forall i, j | 0 <= i < |b| && 0 <= j < |b| && KeyOf(b[i]) == KeyOf(b[j]) ensures LooksLike(b[i], b[j], seen) {
      assert b[i] in multiset(a) && b[j] in multiset(a);
    }
  }

  lemma {:induction false} SameElementsTellTheSame(a: seq<Hop>, b: seq<Hop>, x: Hop, y: Hop, seen: Seen)
    requires multiset(a) == multiset(b) && NothingBetweenTells(a, x, y, seen)
    ensures NothingBetweenTells(b, x, y, seen)
  {
    forall k | 0 <= k < |b| && Between(b[k], x, y) ensures LooksLike(b[k], x, seen) {
      assert b[k] in multiset(a);
    }
  }

  lemma {:induction false} AlikeMeansDetermined(p: seq<Hop>, q: seq<Hop>, seen: Seen)
    requires Indistinct(p, q, seen)
    ensures TiesLookAlike(p, seen) && TiesLookAlike(q, seen)
  {
    var a := SortExists(p);
    var b := SortExists(q);
    assert forall c :: SortOf(c, p) ==> Listing(c, seen) == Listing(b, seen);
    assert forall c :: SortOf(c, q) ==> Listing(a, seen) == Listing(c, seen);
    ListingIsDetermined(p, seen);
    ListingIsDetermined(q, seen);
  }

  /**
    Replacing one hop by another goes unnoticed, however the lists are sorted, exactly when the
    two look alike, no other hop with a key between theirs looks different, and hops with equal
    keys look alike anyway.
   */
  lemma {:induction false} OneHopChangesUnnoticedExactly(others: seq<Hop>, x: Hop, y: Hop, seen: Seen)
    ensures Indistinct(others + [x], others + [y], seen) <==>
            && TiesLookAlike(others + [x], seen) && TiesLookAlike(others + [y], seen)
            && LooksLike(x, y, seen) && NothingBetweenTells(others, x, y, seen)
  {
    var rest := SortExists(others);
    var p, q := others + [x], others + [y];
    var a, b := Inserted(rest, Place(rest, x), x), Inserted(rest, Place(rest, y), y);
    PlaceFits(rest, x);
    PlaceFits(rest, y);
    InsertSorts(rest, x, Place(rest, x));
    InsertSorts(rest, y, Place(rest, y));
    assert SortOf(a, p) && SortOf(b, q);
    if Indistinct(p, q, seen) {
      AlikeMeansDetermined(p, q, seen);
    }
    if TiesLookAlike(p, seen) && TiesLookAlike(q, seen) {
      SameElementsSameTies(p, rest + [x], seen);
      SameElementsSameTies(q, rest + [y], seen);
      PlacesAgreeExactly(rest, x, y, seen);
      if NothingBetweenTells(rest, x, y, seen) {
        SameElementsTellTheSame(rest, others, x, y, seen);
      }
      if NothingBetweenTells(others, x, y, seen) {
        SameElementsTellTheSame(others, rest, x, y, seen);
      }
      forall c, d | SortOf(c, p) && SortOf(d, q)
        ensures Listing(c, seen) == Listing(a, seen) && Listing(d, seen) == Listing(b, seen)
      {
        ListingsOfTies(p, c, a, seen);
        ListingsOfTies(q, d, b, seen);
      }
    }
  }

  /** The hops of a row but for one reference, and that reference's hop. */
  lemma {:induction false} RowsWithOtherTarget(node: Node, i: nat)
    requires i < |node.refs|
    ensures multiset(HopsOf(node)) ==
            multiset(HopsOf(node.(refs := node.refs[..i] + node.refs[i + 1..]))
                     + [Hop(node.id, node.kind, MemoryTarget(node.refs[i]), Reference)])
  {
    var hops, j := HopsOf(node), |node.origins| + i;
    var fewer := node.(refs := node.refs[..i] + node.refs[i + 1..]);
    PinsWithoutOne(node, i);
    Without(hops, j);
    assert hops[..j] + hops[j + 1..] == HopsOf(fewer);
    assert hops[j] == Hop(node.id, node.kind, MemoryTarget(node.refs[i]), Reference);
  }

  lemma {:induction false} PinsWithoutOne(node: Node, i: nat)
    requires i < |node.refs|
    ensures var pins, j := PinsOf(node), |node.origins| + i;
            && j < |pins| && pins[j] == Pin(MemoryTarget(node.refs[i]), Reference)
            && pins[..j] + pins[j + 1..] == PinsOf(node.(refs := node.refs[..i] + node.refs[i + 1..]))
  {
    var origins, goals := MemoryPins(node.origins, Origin), GoalPins(node.goalRefs) + GoalPins(node.guidedBy);
    var refs, fewer := MemoryPins(node.refs, Reference), MemoryPins(node.refs[..i] + node.refs[i + 1..], Reference);
    assert fewer == refs[..i] + refs[i + 1..];
    assert PinsOf(node) == origins + refs + goals;
    assert PinsOf(node.(refs := node.refs[..i] + node.refs[i + 1..])) == origins + fewer + goals;
  }

  lemma {:induction false} SameSorts(p: seq<Hop>, q: seq<Hop>, r: seq<Hop>, s: seq<Hop>, seen: Seen)
    requires multiset(p) == multiset(q) && multiset(r) == multiset(s)
    ensures Indistinct(p, r, seen) <==> Indistinct(q, s, seen)
  {
    assert forall a :: SortOf(a, p) <==> SortOf(a, q);
    assert forall a :: SortOf(a, r) <==> SortOf(a, s);
  }

  /**
    A row that refers to a withheld target and the same row referring to another are listed
    alike exactly when the targets are withheld in the same way and every other reference of
    the row with an id between the two looks like them; ties must look alike anyway.
   */
  lemma {:induction false} OtherTargetUnnoticedExactly(node: Node, i: nat, y: Id, seen: Seen)
    requires i < |node.refs|
    ensures var others := HopsOf(node.(refs := node.refs[..i] + node.refs[i + 1..]));
            var hop := Hop(node.id, node.kind, MemoryTarget(node.refs[i]), Reference);
            var other := hop.(target := MemoryTarget(y));
            Indistinct(HopsOf(node), HopsOf(node.(refs := node.refs[i := y])), seen) <==>
            && TiesLookAlike(others + [hop], seen) && TiesLookAlike(others + [other], seen)
            && LooksLike(hop, other, seen) && NothingBetweenTells(others, hop, other, seen)
  {
    var changed := node.(refs := node.refs[i := y]);
    var others := HopsOf(node.(refs := node.refs[..i] + node.refs[i + 1..]));
    var hop := Hop(node.id, node.kind, MemoryTarget(node.refs[i]), Reference);
    var other := hop.(target := MemoryTarget(y));
    RowsWithOtherTarget(node, i);
    RowsWithOtherTarget(changed, i);
    assert changed.refs[..i] + changed.refs[i + 1..] == node.refs[..i] + node.refs[i + 1..];
    SameSorts(HopsOf(node), others + [hop], HopsOf(changed), others + [other], seen);
    OneHopChangesUnnoticedExactly(others, hop, other, seen);
  }

  /** The hops of a Fact row with two references. */
  function RefersTo(first: Id, second: Id): (hops: seq<Hop>)
    ensures |hops| == 2
    ensures hops[0] == Hop(Early(1), Fact, MemoryTarget(first), Reference)
    ensures hops[1] == Hop(Early(1), Fact, MemoryTarget(second), Reference)
  {
    HopsOf(Node(Early(1), Fact, [], [first, second], [], []))
  }

  /** The place of a redacted edge among the readable ones tells two such rows apart, with nothing after either page. */
  lemma {:induction false} PlaceTellsUnreadableTargetsApart()
    ensures var a, b := RefersTo(Early(5), Early(3)), RefersTo(Early(9), Early(5));
            var seen := Seen(map[Early(5) := Fact], {});
            && Sorted(a) && Sorted(b) && IsRedacted(MemoryTarget(Early(3)), seen) && IsRedacted(MemoryTarget(Early(9)), seen)
            && Respond(a, None, 2, seen).next == None == Respond(b, None, 2, seen).next
            && Respond(a, None, 2, seen).edges != Respond(b, None, 2, seen).edges
  {
    var a, b := RefersTo(Early(5), Early(3)), RefersTo(Early(9), Early(5));
    var seen := Seen(map[Early(5) := Fact], {});
    assert Listing(a, seen)[0] != Listing(b, seen)[0];
  }

  // ---- which target a page ends at ----------------------------------------------------

  /** The first pages of two lists look alike place by place, end or go on together, and end at the same target. */
  ghost predicate PagesAgree(a: seq<Hop>, b: seq<Hop>, limit: nat, seen: Seen)
    requires limit > 0
  {
    if |a| <= limit then |a| == |b| && forall i :: 0 <= i < |a| ==> LooksLike(a[i], b[i], seen)
    else
      && |b| > limit && a[limit - 1].target == b[limit - 1].target
      && forall i :: 0 <= i < limit ==> LooksLike(a[i], b[i], seen)
  }

  /** Whole responses are equal exactly when the pages agree: the cursor names the target a page ends at. */
  lemma {:induction false} ResponsesAgreeExactly(a: seq<Hop>, b: seq<Hop>, cursor: Option<Cursor>, limit: nat, seen: Seen)
    requires limit > 0
    ensures Respond(a, cursor, limit, seen) == Respond(b, cursor, limit, seen) <==>
            PagesAgree(Remaining(a, cursor), Remaining(b, cursor), limit, seen)
  {
    var ra, rb := Remaining(a, cursor), Remaining(b, cursor);
    if |ra| > limit && |rb| > limit {
      ListingsAgreeExactly(ra[..limit], rb[..limit], seen);
      assert ra[..limit][limit - 1] == ra[limit - 1] && rb[..limit][limit - 1] == rb[limit - 1];
    } else {
      ListingsAgreeExactly(ra, rb, seen);
    }
  }

  /** Lists with one listing answer with equal edges, and differ in the cursor exactly where a page ends at different targets. */
  lemma {:induction false} AlikeUpToTheCursor(a: seq<Hop>, b: seq<Hop>, limit: nat, seen: Seen)
    requires limit > 0 && Listing(a, seen) == Listing(b, seen)
    ensures Respond(a, None, limit, seen).edges == Respond(b, None, limit, seen).edges
    ensures Respond(a, None, limit, seen) == Respond(b, None, limit, seen) <==>
            |a| <= limit || a[limit - 1].target == b[limit - 1].target
  {
    ListingsAgreeExactly(a, b, seen);
    ResponsesAgreeExactly(a, b, None, limit, seen);
    if |a| > limit {
      ListingsAgreeExactly(a[..limit], b[..limit], seen);
    }
  }

  /** Two rows that pin different unreadable targets: equal edges, different cursors. */
  lemma {:induction false} CursorTellsUnreadableTargetsApart()
    ensures var a, b := RefersTo(Early(9), Early(2)), RefersTo(Early(8), Early(2));
            var seen := Seen(map[], {});
            && Sorted(a) && Sorted(b)
            && Respond(a, None, 1, seen).edges == Respond(b, None, 1, seen).edges
            && Respond(a, None, 1, seen).next != Respond(b, None, 1, seen).next
  {
    var a, b := RefersTo(Early(9), Early(2)), RefersTo(Early(8), Early(2));
    ListingsAgreeExactly(a, b, Seen(map[], {}));
    AlikeUpToTheCursor(a, b, 1, Seen(map[], {}));
  }

  // ---- following the cursors ----------------------------------------------------------

  /** The first place after `i` with another key. */
  function Next(keys: seq<Key>, i: nat): (m: nat)
    requires i < |keys|
    ensures i < m <= |keys|
    decreases |keys| - i
  {
    if i + 1 == |keys| || keys[i + 1] != keys[i] then i + 1 else Next(keys, i + 1)
  }

  lemma {:induction false} SameKeyUpToNext(keys: seq<Key>, i: nat, j: nat)
    requires i <= j < |keys| && j <= Next(keys, i)
    ensures j < Next(keys, i) ==> keys[j] == keys[i]
    ensures j == Next(keys, i) ==> keys[j] != keys[i]
    decreases |keys| - i
  {
    if i < j && Next(keys, i) != i + 1 {
      SameKeyUpToNext(keys, i + 1, j);
    }
  }

  ghost predicate HasKeys(sorted: seq<Hop>, keys: seq<Key>) {
    |sorted| == |keys| && forall i :: 0 <= i < |keys| ==> KeyOf(sorted[i]) == keys[i]
  }

  /** Page after page, each request sorts anew: `sorts(n)` is the list the page numbered `n` is cut from. */
  ghost predicate KeyedBy(sorts: nat -> seq<Hop>, keys: seq<Key>) {
    forall n :: HasKeys(sorts(n), keys)
  }

  /** Sorts of the same hops share their keys, in descending order. */
  lemma {:induction false} SortsShareKeys(hops: seq<Hop>, sorts: nat -> seq<Hop>)
    requires forall n :: SortOf(sorts(n), hops)
    ensures KeyedBy(sorts, Map(KeyOf, sorts(0))) && SortedKeys(Map(KeyOf, sorts(0)))
  {
    var keys := Map(KeyOf, sorts(0));
    forall n ensures HasKeys(sorts(n), keys) {
      SortIsUnique(hops, sorts(n), sorts(0));
      assert |Map(KeyOf, sorts(n))| == |sorts(n)|;
      assert forall i :: 0 <= i < |keys| ==> KeyOf(sorts(n)[i]) == Map(KeyOf, sorts(n))[i];
    }
  }

  /** The hops a reader gets from place `at` on by following each page's cursor. */
  ghost function Follow(keys: seq<Key>, sorts: nat -> seq<Hop>, page: nat, at: nat, limit: nat): seq<Hop>
    requires KeyedBy(sorts, keys) && at <= |keys| && limit > 0
    decreases |keys| - at
  {
    if |keys| - at <= limit then sorts(page)[at..]
    else sorts(page)[at..at + limit] + Follow(keys, sorts, page + 1, Next(keys, at + limit - 1), limit)
  }

  lemma {:induction false} FilterAll(keep: Hop -> bool, hops: seq<Hop>)
    requires forall i :: 0 <= i < |hops| ==> keep(hops[i])
    ensures Filter(keep, hops) == hops
  {
    if hops != [] {
      FilterAll(keep, hops[1..]);
    }
  }

  lemma {:induction false} FilterNone(keep: Hop -> bool, hops: seq<Hop>)
    requires forall i :: 0 <= i < |hops| ==> !keep(hops[i])
    ensures Filter(keep, hops) == []
  {
    if hops != [] {
      FilterNone(keep, hops[1..]);
    }
  }

  lemma {:induction false} FilterSuffix(keep: Hop -> bool, hops: seq<Hop>, m: nat)
    requires m <= |hops|
    requires forall j :: 0 <= j < m ==> !keep(hops[j])
    requires forall j :: m <= j < |hops| ==> keep(hops[j])
    ensures Filter(keep, hops) == hops[m..]
  {
    assert hops == hops[..m] + hops[m..];
    FilterNone(keep, hops[..m]);
    FilterAll(keep, hops[m..]);
    FilterOfConcat(keep, hops[..m], hops[m..]);
  }

  lemma {:induction false} EarlierIsNotBelow(keys: seq<Key>, i: nat, j: nat)
    requires SortedKeys(keys) && i < |keys| && j < Next(keys, i)
    ensures !keys[j].Less(keys[i])
  {
    if i <= j {
      SameKeyUpToNext(keys, i, j);
    }
  }

  lemma {:induction false} LaterIsBelow(keys: seq<Key>, i: nat, j: nat)
    requires SortedKeys(keys) && i < |keys| && Next(keys, i) <= j < |keys|
    ensures keys[j].Less(keys[i])
  {
    var key, next, later := keys[i], keys[Next(keys, i)], keys[j];
    SameKeyUpToNext(keys, i, Next(keys, i));
    assert !key.Less(next);
    assert next.Less(key) by { KeysAreTotal(key, next); }
    assert next == later || !next.Less(later);
  }

  lemma {:induction false} BelowIsSuffix(sorted: seq<Hop>, keys: seq<Key>, i: nat)
    requires SortedKeys(keys) && HasKeys(sorted, keys) && i < |keys|
    ensures Filter(Below(keys[i]), sorted) == sorted[Next(keys, i)..]
  {
    var below, m := Below(keys[i]), Next(keys, i);
    forall j | 0 <= j < m ensures !below(sorted[j]) {
      EarlierIsNotBelow(keys, i, j);
    }
    forall j | m <= j < |sorted| ensures below(sorted[j]) {
      LaterIsBelow(keys, i, j);
    }
    FilterSuffix(below, sorted, m);
  }

  /** A cursor with the key at place `i`, from whichever sort, resumes at the next smaller key. */
  lemma {:induction false} CursorResumes(sorted: seq<Hop>, keys: seq<Key>, i: nat, hop: Hop)
    requires SortedKeys(keys) && HasKeys(sorted, keys) && i < |keys| && KeyOf(hop) == keys[i]
    ensures Remaining(sorted, Some(CursorAt(hop))) == sorted[Next(keys, i)..]
  {
    BelowIsSuffix(sorted, keys, i);
    assert CursorKey(CursorAt(hop)) == Some(KeyOf(hop));
  }

  lemma {:induction false} PageAndCursor(sorted: seq<Hop>, cursor: Option<Cursor>, at: nat, limit: nat, seen: Seen)
    requires limit > 0 && at + limit < |sorted| && Remaining(sorted, cursor) == sorted[at..]
    ensures Respond(sorted, cursor, limit, seen) ==
            Response(Listing(sorted[at..at + limit], seen), Some(CursorAt(sorted[at + limit - 1])))
  {
    assert sorted[at..][limit - 1] == sorted[at + limit - 1] && sorted[at..][..limit] == sorted[at..at + limit];
  }

  /**
    Successive responses are successive stretches of `Follow`, though each request sorts anew:
    a page's cursor leads, in the next sort, to where the next stretch begins.
   */
  lemma {:induction false} ResponsesFollow(
    keys: seq<Key>, sorts: nat -> seq<Hop>, page: nat, cursor: Option<Cursor>, at: nat, limit: nat, seen: Seen)
    requires KeyedBy(sorts, keys) && SortedKeys(keys)
    requires at <= |keys| && limit > 0 && Remaining(sorts(page), cursor) == sorts(page)[at..]
    ensures var response := Respond(sorts(page), cursor, limit, seen);
            var all := Listing(Follow(keys, sorts, page, at, limit), seen);
            if at + limit < |keys| then
              var m := Next(keys, at + limit - 1);
              && response.next.Some?
              && Remaining(sorts(page + 1), response.next) == sorts(page + 1)[m..]
              && all == response.edges + Listing(Follow(keys, sorts, page + 1, m, limit), seen)
            else response == Response(all, None)
  {
    if at + limit < |keys| {
      var i := at + limit - 1;
      CursorResumes(sorts(page + 1), keys, i, sorts(page)[i]);
      PageGoesOn(keys, sorts, page, cursor, at, limit, seen, sorts(page + 1)[Next(keys, i)..]);
    } else {
      LastPage(sorts(page), cursor, at, limit, seen);
    }
  }

  lemma {:induction false} LastPage(sorted: seq<Hop>, cursor: Option<Cursor>, at: nat, limit: nat, seen: Seen)
    requires limit > 0 && at <= |sorted| <= at + limit && Remaining(sorted, cursor) == sorted[at..]
    ensures Respond(sorted, cursor, limit, seen) == Response(Listing(sorted[at..], seen), None)
  {
  }

  lemma {:induction false} PageGoesOn(
    keys: seq<Key>, sorts: nat -> seq<Hop>, page: nat, cursor: Option<Cursor>, at: nat, limit: nat, seen: Seen,
    later: seq<Hop>)
    requires KeyedBy(sorts, keys) && limit > 0 && at + limit < |keys|
    requires Remaining(sorts(page), cursor) == sorts(page)[at..]
    requires Remaining(sorts(page + 1), Some(CursorAt(sorts(page)[at + limit - 1]))) == later
    ensures var response := Respond(sorts(page), cursor, limit, seen);
            && response.next.Some?
            && Remaining(sorts(page + 1), response.next) == later
            && Listing(Follow(keys, sorts, page, at, limit), seen) ==
               response.edges + Listing(Follow(keys, sorts, page + 1, Next(keys, at + limit - 1), limit), seen)
  {
    PageAndCursor(sorts(page), cursor, at, limit, seen);
    FollowedListing(keys, sorts, page, at, limit, seen);
  }

  lemma {:induction false} FollowedListing(
    keys: seq<Key>, sorts: nat -> seq<Hop>, page: nat, at: nat, limit: nat, seen: Seen)
    requires KeyedBy(sorts, keys) && limit > 0 && at + limit < |keys|
    ensures Listing(Follow(keys, sorts, page, at, limit), seen) ==
            Listing(sorts(page)[at..at + limit], seen)
            + Listing(Follow(keys, sorts, page + 1, Next(keys, at + limit - 1), limit), seen)
  {
    FollowGoesOn(keys, sorts, page, at, limit);
    MapOfConcat(Projecting(seen), sorts(page)[at..at + limit],
                Follow(keys, sorts, page + 1, Next(keys, at + limit - 1), limit));
  }

  lemma {:induction false} FollowGoesOn(keys: seq<Key>, sorts: nat -> seq<Hop>, page: nat, at: nat, limit: nat)
    requires KeyedBy(sorts, keys) && limit > 0 && at + limit < |keys|
    ensures Follow(keys, sorts, page, at, limit) ==
            sorts(page)[at..at + limit] + Follow(keys, sorts, page + 1, Next(keys, at + limit - 1), limit)
  {
  }

  /** No page that starts at a multiple of the limit past `at` ends between two equal keys. */
  predicate NoSplit(keys: seq<Key>, at: nat, limit: nat)
    requires limit > 0
    decreases |keys| - at
  {
    at + limit < |keys| ==> keys[at + limit - 1] != keys[at + limit] && NoSplit(keys, at + limit, limit)
  }

  lemma {:induction false} FollowIsShort(keys: seq<Key>, sorts: nat -> seq<Hop>, page: nat, at: nat, limit: nat)
    requires KeyedBy(sorts, keys) && at <= |keys| && limit > 0
    ensures |Follow(keys, sorts, page, at, limit)| <= |keys| - at
    ensures |Follow(keys, sorts, page, at, limit)| == |keys| - at <==> NoSplit(keys, at, limit)
    decreases |keys| - at
  {
    if |keys| - at > limit {
      FollowIsShort(keys, sorts, page + 1, Next(keys, at + limit - 1), limit);
    }
  }

  /** Where the key changes, any two sorts of the same hops have the same hops left. */
  lemma {:induction false} SameHopsLeft(hops: seq<Hop>, a: seq<Hop>, b: seq<Hop>, keys: seq<Key>, i: nat)
    requires SortOf(a, hops) && SortOf(b, hops) && SortedKeys(keys) && i < |keys|
    requires HasKeys(a, keys) && HasKeys(b, keys)
    ensures multiset(a[Next(keys, i)..]) == multiset(b[Next(keys, i)..])
  {
    BelowIsSuffix(a, keys, i);
    BelowIsSuffix(b, keys, i);
    FilterKeepsMultisets(Below(keys[i]), a, b);
  }

  /** Each list has the same hops as the next one after any place where the key changes. */
  ghost predicate LeaveTheSame(sorts: nat -> seq<Hop>, keys: seq<Key>)
    requires KeyedBy(sorts, keys)
  {
    forall n, i :: 0 <= n && 0 <= i < |keys| ==> SameAfter(sorts(n), sorts(n + 1), Next(keys, i))
  }

  ghost predicate SameAfter(a: seq<Hop>, b: seq<Hop>, m: nat) {
    m <= |a| && m <= |b| && multiset(a[m..]) == multiset(b[m..])
  }

  lemma {:induction false} SortsLeaveTheSame(hops: seq<Hop>, keys: seq<Key>, sorts: nat -> seq<Hop>)
    requires (forall n :: SortOf(sorts(n), hops)) && KeyedBy(sorts, keys) && SortedKeys(keys)
    ensures LeaveTheSame(sorts, keys)
  {
    forall n, i | 0 <= n && 0 <= i < |keys| ensures SameAfter(sorts(n), sorts(n + 1), Next(keys, i)) {
      SameHopsLeft(hops, sorts(n), sorts(n + 1), keys, i);
    }
  }

  lemma {:induction false} UnsplitPagesListAll(keys: seq<Key>, sorts: nat -> seq<Hop>, page: nat, at: nat, limit: nat)
    requires KeyedBy(sorts, keys) && LeaveTheSame(sorts, keys)
    requires at <= |keys| && limit > 0 && NoSplit(keys, at, limit)
    ensures multiset(Follow(keys, sorts, page, at, limit)) == multiset(sorts(page)[at..])
    decreases |keys| - at
  {
    if |keys| - at > limit {
      var m := Next(keys, at + limit - 1);
      UnsplitPagesListAll(keys, sorts, page + 1, m, limit);
      assert SameAfter(sorts(page), sorts(page + 1), m);
      FollowGoesOn(keys, sorts, page, at, limit);
      SameElementsAfter(sorts(page), at, m, Follow(keys, sorts, page + 1, m, limit));
    }
  }

  lemma {:induction false} SameElementsAfter(sorted: seq<Hop>, at: nat, m: nat, rest: seq<Hop>)
    requires at <= m <= |sorted| && multiset(rest) == multiset(sorted[m..])
    ensures multiset(sorted[at..m] + rest) == multiset(sorted[at..])
  {
    assert sorted[at..] == sorted[at..m] + sorted[m..];
  }

  /** Following the cursors lists every hop as often as it is there exactly when no page ends between two equal keys. */
  lemma {:induction false} PagesAreComplete(hops: seq<Hop>, keys: seq<Key>, sorts: nat -> seq<Hop>, limit: nat)
    requires (forall n :: SortOf(sorts(n), hops)) && KeyedBy(sorts, keys) && SortedKeys(keys)
    requires limit > 0
    ensures multiset(Follow(keys, sorts, 0, 0, limit)) == multiset(hops) <==> NoSplit(keys, 0, limit)
  {
    var all := Follow(keys, sorts, 0, 0, limit);
    FollowIsShort(keys, sorts, 0, 0, limit);
    assert |multiset(all)| == |all| && |multiset(sorts(0))| == |sorts(0)|;
    if NoSplit(keys, 0, limit) {
      SortsLeaveTheSame(hops, keys, sorts);
      UnsplitPagesListAll(keys, sorts, 0, 0, limit);
      assert sorts(0)[0..] == sorts(0);
    }
  }

  /** Even then no key is lost: each place's hop, or one with the same key, is listed. */
  lemma {:induction false} EveryKeyIsListed(
    keys: seq<Key>, sorts: nat -> seq<Hop>, page: nat, at: nat, limit: nat, i: nat) returns (k: nat)
    requires KeyedBy(sorts, keys) && at <= i < |keys| && limit > 0
    ensures k < |Follow(keys, sorts, page, at, limit)| && KeyOf(Follow(keys, sorts, page, at, limit)[k]) == keys[i]
    decreases |keys| - at
  {
    if i < at + limit {
      k := ListedHere(keys, sorts, page, at, limit, i);
    } else {
      var m := Next(keys, at + limit - 1);
      if i < m {
        SameKeyUpToNext(keys, at + limit - 1, i);
        k := ListedHere(keys, sorts, page, at, limit, at + limit - 1);
      } else {
        var later := EveryKeyIsListed(keys, sorts, page + 1, m, limit, i);
        ListedLater(keys, sorts, page, at, limit, later);
        k := later + limit;
      }
    }
  }

  /** A place of the present page is listed. */
  lemma {:induction false} ListedHere(keys: seq<Key>, sorts: nat -> seq<Hop>, page: nat, at: nat, limit: nat, i: nat) returns (k: nat)
    requires KeyedBy(sorts, keys) && at <= i < |keys| && limit > 0
    requires i < at + limit
    ensures k < |Follow(keys, sorts, page, at, limit)| && KeyOf(Follow(keys, sorts, page, at, limit)[k]) == keys[i]
  {
    k := i - at;
    if at + limit < |keys| {
      FollowGoesOn(keys, sorts, page, at, limit);
    }
  }

  /** A place of the pages that follow is listed after the present page. */
  lemma {:induction false} ListedLater(keys: seq<Key>, sorts: nat -> seq<Hop>, page: nat, at: nat, limit: nat, k: nat)
    requires KeyedBy(sorts, keys) && limit > 0 && at + limit < |keys|
    requires k < |Follow(keys, sorts, page + 1, Next(keys, at + limit - 1), limit)|
    ensures k + limit < |Follow(keys, sorts, page, at, limit)|
    ensures Follow(keys, sorts, page, at, limit)[k + limit] ==
            Follow(keys, sorts, page + 1, Next(keys, at + limit - 1), limit)[k]
  {
    FollowGoesOn(keys, sorts, page, at, limit);
  }

  /** What is listed comes from the sorts. */
  lemma {:induction false} FollowStaysWithin(
    keys: seq<Key>, sorts: nat -> seq<Hop>, page: nat, at: nat, limit: nat, k: nat, hops: iset<Hop>)
    requires KeyedBy(sorts, keys) && at <= |keys| && limit > 0 && k < |Follow(keys, sorts, page, at, limit)|
    requires forall n :: AllIn(sorts(n), hops)
    ensures Follow(keys, sorts, page, at, limit)[k] in hops
    decreases |keys| - at
  {
    assert AllIn(sorts(page), hops);
    if at + limit < |keys| {
      FollowGoesOn(keys, sorts, page, at, limit);
      if k >= limit {
        FollowStaysWithin(keys, sorts, page + 1, Next(keys, at + limit - 1), limit, k - limit, hops);
      }
    }
  }

  ghost predicate AllIn(sorted: seq<Hop>, hops: iset<Hop>) {
    forall i :: 0 <= i < |sorted| ==> sorted[i] in hops
  }

  /** Where equal keys mean equal hops, what following the cursors skips is only a repeat: every hop is listed. */
  lemma {:induction false} EveryHopIsListed(hops: seq<Hop>, keys: seq<Key>, sorts: nat -> seq<Hop>, limit: nat, hop: Hop)
    requires (forall n :: SortOf(sorts(n), hops)) && KeyedBy(sorts, keys)
    requires KeysIdentify(hops) && hop in hops && limit > 0
    ensures hop in Follow(keys, sorts, 0, 0, limit)
  {
    assert hop in multiset(sorts(0));
    var i :| 0 <= i < |sorts(0)| && sorts(0)[i] == hop;
    var k := EveryKeyIsListed(keys, sorts, 0, 0, limit, i);
    var all := iset h | h in hops;
    forall n ensures AllIn(sorts(n), all) {
      forall j | 0 <= j < |sorts(n)| ensures sorts(n)[j] in all {
        assert sorts(n)[j] in multiset(hops);
      }
    }
    FollowStaysWithin(keys, sorts, 0, 0, limit, k, all);
  }

  lemma {:induction false} RepeatIsCut(hop: Hop, seen: Seen)
    ensures var hops := [hop, hop];
            var first := Respond(hops, None, 1, seen);
            && Sorted(hops) && |first.edges| == 1 && first.next.Some? && Respond(hops, first.next, 1, seen) == Response([], None)
  {
    var hops, keys := [hop, hop], [KeyOf(hop), KeyOf(hop)];
    assert Next(keys, 0) == 2;
    PageAndCursor(hops, None, 0, 1, seen);
    CursorResumes(hops, keys, 0, hop);
  }

  /**
    A visible Goal both referred to and guiding gives two equal hops; pages of one list it once,
    and the page after the first is empty.
   */
  lemma {:induction false} EqualKeysCanBeCut(seen: Seen)
    ensures var hops := HopsOf(Resolved(Node(Early(1), Perspective, [], [], [Early(5)], [Early(5)]), {Early(5)}));
            var first := Respond(hops, None, 1, seen);
            && Sorted(hops) && |hops| == 2 && |first.edges| == 1 && first.next.Some? && Respond(hops, first.next, 1, seen) == Response([], None)
  {
    var node := Node(Early(1), Perspective, [], [], [Early(5)], [Early(5)]);
    var hop := Hop(Early(1), Perspective, GoalTarget(Early(5)), Reference);
    assert Kept([Early(5)], {Early(5)}) == [Early(5)] && Hidden([Early(5)], {Early(5)}) == [];
    assert Resolved(node, {Early(5)}) == node;
    assert HopsOf(node) == [hop, hop];
    RepeatIsCut(hop, seen);
  }
}
