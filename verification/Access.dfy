/** Owner roles: the role lattice, and the map from owners to a subject's role in each. */
module Access {
  import opened Wrappers
  import Sorting

  /** A user, a group and an owner are named by the same kind of id, a UUID read as a number. */
  type OwnerId = nat

  datatype AccessKind = Fact | Abstraction | Perspective | Goal {
    function Rank(): nat {
      match this
      case Fact => 1
      case Abstraction => 2
      case Perspective => 3
      case Goal => 4
    }
  }

  datatype AccessCeiling = Closed | UpTo(kind: AccessKind) {
    function Rank(): nat {
      match this
      case Closed => 0
      case UpTo(kind) => kind.Rank()
    }

    predicate Allows(kind: AccessKind) {
      kind.Rank() <= Rank()
    }
  }

  datatype RoleFields = Role(read: AccessCeiling, write: AccessCeiling, manage: bool)

  /** A role never writes above what it reads. */
  type Role = r: RoleFields | r.write.Rank() <= r.read.Rank() witness Role(Closed, Closed, false)

  datatype AccessError = WriteExceedsRead | DerivedOwnerOverride

  function NewRole(read: AccessCeiling, write: AccessCeiling, manage: bool): (r: Result<Role, AccessError>)
    ensures r.Err? <==> exists kind: AccessKind :: write.Allows(kind) && !read.Allows(kind)
    ensures r.Ok? ==> forall kind: AccessKind ::
                        (r.value.read.Allows(kind) <==> read.Allows(kind)) && (r.value.write.Allows(kind) <==> write.Allows(kind))
    ensures r.Ok? ==> r.value.manage == manage
  {
    if write.Rank() > read.Rank() then
      assert write.Allows(write.kind) && !read.Allows(write.kind);
      Err(WriteExceedsRead)
    else Ok(Role(read, write, manage))
  }

  const PERSONAL: Role := Role(UpTo(Goal), UpTo(Goal), false)
  const VIEWER: Role := Role(UpTo(Goal), Closed, false)
  const INGEST: Role := Role(UpTo(Fact), UpTo(Fact), false)
  const EDITOR: Role := Role(UpTo(Goal), UpTo(Perspective), false)

  function Lower(a: AccessCeiling, b: AccessCeiling): AccessCeiling {
    if a.Rank() <= b.Rank() then a else b
  }

  function Higher(a: AccessCeiling, b: AccessCeiling): AccessCeiling {
    if a.Rank() >= b.Rank() then a else b
  }

  function Meet(a: Role, b: Role): Role {
    Role(Lower(a.read, b.read), Lower(a.write, b.write), a.manage && b.manage)
  }

  function Join(a: Role, b: Role): Role {
    Role(Higher(a.read, b.read), Higher(a.write, b.write), a.manage || b.manage)
  }

  predicate Dominates(a: Role, required: Role) {
    && Meet(a, required).read.Rank() == required.read.Rank()
    && Meet(a, required).write.Rank() == required.write.Rank()
    && (!required.manage || a.manage)
  }

  /** One role dominates another exactly when every capability of the other is its own. */
  lemma DominatesIsContainment(a: Role, b: Role)
    ensures Dominates(a, b) <==>
            && (forall kind: AccessKind :: b.read.Allows(kind) ==> a.read.Allows(kind))
            && (forall kind: AccessKind :: b.write.Allows(kind) ==> a.write.Allows(kind))
            && (b.manage ==> a.manage)
  {
    if b.read.UpTo? {
      assert b.read.Allows(b.read.kind);
    }
    if b.write.UpTo? {
      assert b.write.Allows(b.write.kind);
    }
  }

  lemma DominatesIsPartialOrder(a: Role, b: Role, c: Role)
    ensures Dominates(a, a)
    ensures Dominates(a, b) && Dominates(b, a) ==> a == b
    ensures Dominates(a, b) && Dominates(b, c) ==> Dominates(a, c)
  {
  }

  /** Greatest role below both, least role above both. */
  lemma RolesFormALattice(a: Role, b: Role, r: Role)
    ensures Dominates(Meet(a, b), r) <==> Dominates(a, r) && Dominates(b, r)
    ensures Dominates(r, Join(a, b)) <==> Dominates(r, a) && Dominates(r, b)
  {
  }

  /** The forwarding ceilings: none manages, none writes Goals. */
  datatype ForwarderRole = Viewer | Ingest | Editor {
    function AsRole(): (r: Role)
      ensures !r.manage && !r.write.Allows(Goal) && r.read.Allows(Fact)
    {
      match this
      case Viewer => VIEWER
      case Ingest => INGEST
      case Editor => EDITOR
    }
  }

  /** A ceiling allows its own kind and those below it: Fact, Abstraction, Perspective, Goal in rising order. */
  lemma CeilingsAreNested(ceiling: AccessCeiling, kind: AccessKind)
    ensures ceiling.Allows(kind) <==>
            match ceiling
            case Closed => false
            case UpTo(top) => kind == top || kind == Fact || top == Goal || (top == Perspective && kind == Abstraction)
  {
  }

  /** What each named role can do: a viewer reads, an ingester only feeds Facts, an editor writes all but Goals. */
  lemma NamedRoles(role: ForwarderRole, kind: AccessKind)
    ensures role.AsRole().read.Allows(kind) <==> role != Ingest || kind == Fact
    ensures role.AsRole().write.Allows(kind) <==> (role == Ingest && kind == Fact) || (role == Editor && kind != Goal)
    ensures PERSONAL.read.Allows(kind) && PERSONAL.write.Allows(kind) && !PERSONAL.manage
  {
  }

  // ---- the role map -------------------------------------------------------------------

  datatype OwnerRoles = OwnerRoles(subject: OwnerId, roles: map<OwnerId, Role>) {
    function RoleFor(owner: OwnerId): Option<Role> {
      if owner in roles then Some(roles[owner]) else None
    }

    predicate MayRead(owner: OwnerId, kind: AccessKind) {
      owner in roles && roles[owner].read.Allows(kind)
    }

    predicate MayWrite(owner: OwnerId, kind: AccessKind) {
      owner in roles && roles[owner].write.Allows(kind)
    }

    /** A personal owner never manages. */
    predicate MayManage(owner: OwnerId) {
      owner != subject && owner in roles && roles[owner].manage
    }

    function Readable(kind: AccessKind): set<OwnerId> {
      set owner | owner in roles && roles[owner].read.Allows(kind)
    }

    function Writable(kind: AccessKind): set<OwnerId> {
      set owner | owner in roles && roles[owner].write.Allows(kind)
    }

    /** One on-demand answer replaces what the map held; the subject's own id is never answered. */
    function WithGroupRole(group: OwnerId, role: Role): OwnerRoles {
      if group == subject then this else OwnerRoles(subject, roles[group := role])
    }
  }

  function ScopedTo(subject: OwnerId, owner: OwnerId, role: Role): OwnerRoles {
    OwnerRoles(subject, map[owner := role])
  }

  function WithoutAccess(subject: OwnerId): OwnerRoles {
    OwnerRoles(subject, map[])
  }

  type Row = (OwnerId, Role)

  function AddRow(roles: map<OwnerId, Role>, row: Row): map<OwnerId, Role> {
    roles[row.0 := if row.0 in roles then Join(roles[row.0], row.1) else row.1]
  }

  /** The subject's personal role and the joined rows. */
  function RoleMap(subject: OwnerId, rows: seq<Row>): map<OwnerId, Role> {
    if rows == [] then map[subject := PERSONAL]
    else AddRow(RoleMap(subject, rows[..|rows| - 1]), rows[|rows| - 1])
  }

  predicate Names(rows: seq<Row>, owner: OwnerId) {
    exists i :: 0 <= i < |rows| && rows[i].0 == owner
  }

  /** The loop over the resolver's rows, refused exactly when one names the subject's own id. */
  method ForSubject(subject: OwnerId, rows: seq<Row>) returns (r: Result<OwnerRoles, AccessError>)
    ensures r.Err? <==> Names(rows, subject)
    ensures r.Err? ==> r.error == DerivedOwnerOverride
    ensures r.Ok? ==> r.value == OwnerRoles(subject, RoleMap(subject, rows))
  {
    var roles: map<OwnerId, Role> := map[subject := PERSONAL];
    for i := 0 to |rows|
      invariant !Names(rows[..i], subject)
      invariant roles == RoleMap(subject, rows[..i])
    {
      assert rows[..i + 1][..i] == rows[..i];
      var (owner, role) := rows[i];
      if owner == subject {
        return Err(DerivedOwnerOverride);
      }
      roles := roles[owner := if owner in roles then Join(roles[owner], role) else role];
    }
    assert rows[..|rows|] == rows;
    return Ok(OwnerRoles(subject, roles));
  }

  /** `role` is at least every row `owner` has. */
  ghost predicate Covers(role: Role, rows: seq<Row>, owner: OwnerId) {
    forall i :: 0 <= i < |rows| && rows[i].0 == owner ==> Dominates(role, rows[i].1)
  }

  /** A group holds the least role that dominates all its rows, and only named groups hold one. */
  lemma {:induction false} LeastRoleOfAllRows(subject: OwnerId, rows: seq<Row>, owner: OwnerId)
    requires owner != subject
    ensures owner in RoleMap(subject, rows) <==> Names(rows, owner)
    ensures owner in RoleMap(subject, rows) ==>
              forall role: Role :: Dominates(role, RoleMap(subject, rows)[owner]) <==> Covers(role, rows, owner)
  {
    if rows != [] {
      var n := |rows| - 1;
      var before, row := rows[..n], rows[n];
      LeastRoleOfAllRows(subject, before, owner);
      assert forall i :: 0 <= i < n ==> before[i] == rows[i];
      if row.0 == owner {
        assert Names(rows, owner);
        forall role: Role
          ensures Dominates(role, RoleMap(subject, rows)[owner]) <==> Covers(role, rows, owner)
        {
          CoversOfPush(role, before, row, owner);
          assert rows == before + [row];
          if owner in RoleMap(subject, before) {
            RolesFormALattice(RoleMap(subject, before)[owner], row.1, role);
          } else {
            assert Covers(role, before, owner);
          }
        }
      } else {
        forall role: Role
          ensures Covers(role, rows, owner) <==> Covers(role, before, owner)
        {
          CoversOfPush(role, before, row, owner);
          assert rows == before + [row];
        }
      }
    }
  }

  lemma CoversOfPush(role: Role, rows: seq<Row>, row: Row, owner: OwnerId)
    ensures Covers(role, rows + [row], owner)
        <==> Covers(role, rows, owner) && (row.0 == owner ==> Dominates(role, row.1))
  {
    var all := rows + [row];
    assert all[|rows|] == row;
    assert forall i :: 0 <= i < |rows| ==> all[i] == rows[i];
  }

  /** The subject's own role is the personal one whenever no row names it. */
  lemma {:induction false} OwnRoleIsPersonal(subject: OwnerId, rows: seq<Row>)
    requires !Names(rows, subject)
    ensures subject in RoleMap(subject, rows) && RoleMap(subject, rows)[subject] == PERSONAL
  {
    if rows != [] {
      var n := |rows| - 1;
      assert !Names(rows[..n], subject) by {
        assert forall i :: 0 <= i < n ==> rows[..n][i] == rows[i];
      }
      OwnRoleIsPersonal(subject, rows[..n]);
    }
  }

  /** Rows may come in any order and any number of times. */
  lemma OrderAndRepeatsDoNotMatter(subject: OwnerId, a: seq<Row>, b: seq<Row>)
    requires forall row :: row in a <==> row in b
    ensures Names(a, subject) <==> Names(b, subject)
    ensures !Names(a, subject) ==> RoleMap(subject, a) == RoleMap(subject, b)
  {
    forall owner
      ensures Names(a, owner) <==> Names(b, owner)
    {
      SameRowsNameTheSame(a, b, owner);
      SameRowsNameTheSame(b, a, owner);
    }
    if !Names(a, subject) {
      OwnRoleIsPersonal(subject, a);
      OwnRoleIsPersonal(subject, b);
      forall owner | owner != subject
        ensures owner in RoleMap(subject, a) <==> owner in RoleMap(subject, b)
        ensures owner in RoleMap(subject, a) ==> RoleMap(subject, a)[owner] == RoleMap(subject, b)[owner]
      {
        LeastRoleOfAllRows(subject, a, owner);
        LeastRoleOfAllRows(subject, b, owner);
        if owner in RoleMap(subject, a) {
          LeastRoleIsUnique(subject, a, b, owner);
        }
      }
    }
  }

  lemma SameRowsNameTheSame(a: seq<Row>, b: seq<Row>, owner: OwnerId)
    requires forall row :: row in a ==> row in b
    ensures Names(a, owner) ==> Names(b, owner)
    ensures forall role: Role :: Covers(role, b, owner) ==> Covers(role, a, owner)
  {
    if Names(a, owner) {
      var i :| 0 <= i < |a| && a[i].0 == owner;
      assert a[i] in b;
    }
    forall role: Role, i | Covers(role, b, owner) && 0 <= i < |a| && a[i].0 == owner
      ensures Dominates(role, a[i].1)
    {
      assert a[i] in b;
    }
  }

  lemma LeastRoleIsUnique(subject: OwnerId, a: seq<Row>, b: seq<Row>, owner: OwnerId)
    requires owner != subject && forall row :: row in a <==> row in b
    requires owner in RoleMap(subject, a) && owner in RoleMap(subject, b)
    ensures RoleMap(subject, a)[owner] == RoleMap(subject, b)[owner]
  {
    LeastRoleOfAllRows(subject, a, owner);
    LeastRoleOfAllRows(subject, b, owner);
    SameRowsNameTheSame(a, b, owner);
    SameRowsNameTheSame(b, a, owner);
    var ra, rb := RoleMap(subject, a)[owner], RoleMap(subject, b)[owner];
    DominatesIsPartialOrder(ra, rb, ra);
    assert Dominates(ra, ra) && Dominates(rb, rb);
  }

  // ---- listing ------------------------------------------------------------------------

  /** The subject's own id first, then by id. */
  predicate ListedBefore(subject: OwnerId, a: OwnerId, b: OwnerId) {
    if a == subject then b != subject
    else b != subject && a < b
  }

  function Listing(subject: OwnerId): (OwnerId, OwnerId) -> bool {
    (a: OwnerId, b: OwnerId) => ListedBefore(subject, a, b)
  }

  lemma ListingIsStrictOrder(subject: OwnerId)
    ensures Sorting.StrictOrder(Listing(subject))
  {
  }

  lemma ListedInOrder(subject: OwnerId, owners: seq<OwnerId>)
    requires Sorting.Ascending(owners, Listing(subject))
    ensures forall i :: 0 < i < |owners| ==> owners[i] != subject
    ensures forall i, j :: 0 <= i < j < |owners| && owners[i] != subject ==> owners[i] < owners[j]
  {
    forall i | 0 < i < |owners| ensures owners[i] != subject {
      assert Listing(subject)(owners[0], owners[i]);
    }
    forall i, j | 0 <= i < j < |owners| && owners[i] != subject ensures owners[i] < owners[j] {
      assert Listing(subject)(owners[i], owners[j]);
    }
  }

  /** Owners that pass the filter, once each, the subject's own id first and the rest ascending. */
  method Ordered(roles: OwnerRoles, keep: Role -> bool) returns (owners: seq<OwnerId>)
    ensures Sorting.Elements(owners) == set owner | owner in roles.roles && keep(roles.roles[owner])
    ensures forall i :: 0 < i < |owners| ==> owners[i] != roles.subject
    ensures forall i, j :: 0 <= i < j < |owners| && owners[i] != roles.subject ==> owners[i] < owners[j]
  {
    owners := [];
    var left := roles.roles.Keys;
    ghost var all := set owner | owner in roles.roles && keep(roles.roles[owner]);
    while left != {}
      invariant left <= roles.roles.Keys && Sorting.Distinct(owners)
      invariant Sorting.Elements(owners) == all - left
      decreases left
    {
      var owner :| owner in left;
      assert owner !in Sorting.Elements(owners);
      if keep(roles.roles[owner]) {
        Sorting.ElementsOfPush(owners, owner);
        owners := owners + [owner];
      }
      left := left - {owner};
    }
    ListingIsStrictOrder(roles.subject);
    owners := Sorting.Sort(owners, Listing(roles.subject));
    ListedInOrder(roles.subject, owners);
  }
}
