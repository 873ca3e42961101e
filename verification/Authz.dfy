/**
  The authorization context: built from server-resolved roles or a forwarding credential, then
  narrowed, extended on demand and sealed into an owner scope. The source's builders consume a
  context and give one back, so each is a function from a context to an optional context.
 */
module Authz {
  import opened Wrappers
  import opened Access
  import opened Capabilities

  datatype Writer = Writer(author: OwnerId, via: Option<OwnerId>)
  datatype AuthPath = HostBearer | Delegated | System | Denied

  predicate Expired(deadline: Option<nat>, now: nat) {
    deadline.Some? && deadline.value <= now
  }

  /** The deadline is `end` or before it. */
  predicate EndsBy(deadline: Option<nat>, end: nat) {
    deadline.Some? && deadline.value <= end
  }

  function Earlier(a: Option<nat>, b: Option<nat>): Option<nat> {
    if a.None? then b else if b.None? then a else if a.value <= b.value then a else b
  }

  // ---- the sealed witness -------------------------------------------------------------

  datatype OwnerScope = OwnerScope(
    roles: OwnerRoles, writer: Writer, expiresAt: Option<nat>, selected: Option<OwnerId>, goalPrincipal: Option<OwnerId>)
  {
    function AddGroupRole(group: OwnerId, role: Role, now: nat): Option<OwnerScope> {
      if selected.Some? || Expired(expiresAt, now) then None
      else Some(this.(roles := roles.WithGroupRole(group, role)))
    }

    function Narrow(owner: OwnerId): Option<OwnerScope> {
      if owner !in roles.roles then None
      else Some(OwnerScope(ScopedTo(roles.subject, owner, roles.roles[owner]), writer, expiresAt, Some(owner), None))
    }

    function WithGoalPrincipal(principal: OwnerId): OwnerScope {
      if selected.None? then this.(goalPrincipal := Some(principal)) else this
    }
  }

  function FromVerifiedRoles(roles: OwnerRoles, expiresAt: Option<nat>, writer: Writer): OwnerScope {
    OwnerScope(roles, writer, expiresAt, None, None)
  }

  datatype ScopeState = Unsealed(confined: Option<OwnerId>) | Sealed(scope: OwnerScope) {
    function ConfinedTo(): Option<OwnerId> {
      match this
      case Unsealed(confined) => confined
      case Sealed(scope) => scope.selected
    }
  }

  // ---- the context --------------------------------------------------------------------

  datatype Context = Context(
    subject: Option<OwnerId>, writer: Option<Writer>, principal: OwnerId, accessible: set<OwnerId>,
    expiresAt: Option<nat>, epoch: nat, trustedModel: Option<string>, tools: ToolScope, served: ServedSurface,
    path: AuthPath, roles: Option<OwnerRoles>, state: ScopeState, forwarded: Option<OwnerId>,
    defaultOwner: Option<OwnerId>)
  {
    predicate MayRead(owner: OwnerId, kind: AccessKind) {
      roles.Some? && roles.value.MayRead(owner, kind)
    }

    predicate MayWrite(owner: OwnerId, kind: AccessKind) {
      roles.Some? && roles.value.MayWrite(owner, kind)
    }

    predicate MayManage(owner: OwnerId) {
      roles.Some? && roles.value.MayManage(owner)
    }

    /** The caller holds the key and the deployment serves it. */
    predicate Admits(key: ScopeKey, isRead: bool) {
      tools.Allows(key) && served.Admits(key, isRead)
    }

    function WithRoles(next: OwnerRoles): Context {
      this.(roles := Some(next), accessible := next.Readable(Fact))
    }
  }

  function ServerResolved(roles: OwnerRoles, path: AuthPath, writer: Writer): Context {
    Context(
      Some(roles.subject), if path.Denied? then None else Some(writer), roles.subject, roles.Readable(Fact),
      None, 0, None, AllTools, AllServed, path, Some(roles), Unsealed(None), None, None)
  }

  function FromForwardedOwner(subject: OwnerId, owner: OwnerId, writer: Writer): Context {
    ServerResolved(WithoutAccess(subject), HostBearer, writer).(forwarded := Some(owner))
  }

  function ForSystem(roles: OwnerRoles): Context {
    var writer := Writer(roles.subject, None);
    ServerResolved(roles, System, writer).(state := Sealed(FromVerifiedRoles(roles, None, writer)))
  }

  function ForInsecureSingleOwner(owner: OwnerId): (c: Context)
    ensures c.roles == Some(ScopedTo(owner, owner, PERSONAL)) && c.state.ConfinedTo() == Some(owner)
  {
    var roles, writer := ScopedTo(owner, owner, PERSONAL), Writer(owner, None);
    var context := ServerResolved(roles, HostBearer, writer).(state := Sealed(FromVerifiedRoles(roles, None, writer)));
    Narrow(context, owner).value
  }

  function DeniedForOwner(owner: OwnerId): Context {
    Context(None, None, owner, {}, None, 0, None, ToolPalette([]), ServedPalette([]), Denied, None, Unsealed(None), None, None)
  }

  // ---- the builders -------------------------------------------------------------------

  function Narrow(c: Context, owner: OwnerId): Option<Context> {
    if c.roles.None? || owner !in c.roles.value.roles then None
    else
      var narrowed := ScopedTo(c.roles.value.subject, owner, c.roles.value.roles[owner]);
      match c.state
      case Unsealed(_) => Some(c.WithRoles(narrowed).(state := Unsealed(Some(owner)), defaultOwner := None))
      case Sealed(scope) =>
        var inner := scope.Narrow(owner);
        if inner.None? then None
        else Some(c.WithRoles(narrowed).(state := Sealed(inner.value), defaultOwner := None))
  }

  function WithHostResolvedRole(c: Context, group: OwnerId, role: Role): Option<Context> {
    if c.state != Unsealed(None) || c.forwarded.Some? || c.roles.None? then None
    else Some(c.WithRoles(c.roles.value.WithGroupRole(group, role)))
  }

  /** `answer` is what the host's port said of this group; `None` covers its errors. */
  function WithGroupRole(c: Context, group: OwnerId, answer: Option<Role>, now: nat): Option<Context> {
    if c.forwarded.Some? || c.state.Unsealed? || Expired(c.state.scope.expiresAt, now)
       || c.subject.None? || answer.None? || c.roles.None? then None
    else
      var scope := c.state.scope.AddGroupRole(group, answer.value, now);
      if scope.None? then None
      else Some(c.WithRoles(c.roles.value.WithGroupRole(group, answer.value)).(state := Sealed(scope.value)))
  }

  /** Resolve a verified forwarding claim; the port says whether the subject forwards and with what role. */
  function WithForwardedOwner(
    c: Context, owner: OwnerId, isForwarder: bool, answer: Option<ForwarderRole>, now: nat): Option<Context>
  {
    if c.state.Unsealed? then None
    else
      var expiresAt := Earlier(c.expiresAt, c.state.scope.expiresAt);
      if c.forwarded != Some(owner) || Expired(expiresAt, now) || c.subject.None? || !isForwarder || answer.None? then None
      else
        var roles := ScopedTo(c.subject.value, owner, answer.value.AsRole());
        var sealed := Sealed(FromVerifiedRoles(roles, expiresAt, c.state.scope.writer));
        Narrow(c.WithRoles(roles).(expiresAt := expiresAt, state := sealed), owner)
  }

  function Seal(c: Context): Option<Context> {
    if c.roles.None? || c.writer.None? then None
    else
      var scope := FromVerifiedRoles(c.roles.value, c.expiresAt, c.writer.value);
      var confined := c.state.ConfinedTo();
      var lane := if c.path.HostBearer? && c.forwarded.None? && confined.None?
                  then scope.WithGoalPrincipal(scope.roles.subject) else scope;
      if confined.None? then Some(c.(state := Sealed(lane)))
      else
        var inner := lane.Narrow(confined.value);
        if inner.None? then None else Some(c.(state := Sealed(inner.value)))
  }

  function WithDefaultOwner(c: Context, owner: OwnerId): Option<Context> {
    if c.roles.None? || owner !in c.roles.value.roles then None else Some(c.(defaultOwner := Some(owner)))
  }

  function WithAttestedWriter(c: Context, writer: Writer): Option<Context> {
    if c.state.Sealed? || c.path.Denied? then None else Some(c.(writer := Some(writer)))
  }

  /** Everything a holder of a context can do with it. */
  datatype Op =
    | AttestWriter(writer: Writer)
    | SetToolScope(tools: ToolScope)
    | RestrictSurface(surface: ServedSurface)
    | BindModel(model: string)
    | NameDefault(owner: OwnerId)
    | NarrowTo(owner: OwnerId)
    | FoldHostRole(group: OwnerId, role: Role)
    | ResolveGroup(group: OwnerId, answer: Option<Role>, now: nat)
    | ResolveForwarded(owner: OwnerId, isForwarder: bool, granted: Option<ForwarderRole>, now: nat)
    | SealScope
    | SetExpiry(expiresAt: Option<nat>)
    | SetEpoch(epoch: nat)

  function Perform(c: Context, op: Op): Option<Context> {
    match op
    case AttestWriter(writer) => WithAttestedWriter(c, writer)
    case SetToolScope(tools) => Some(c.(tools := tools))
    case RestrictSurface(surface) => Some(c.(served := c.served.Restrict(surface)))
    case BindModel(model) => Some(c.(trustedModel := Some(model)))
    case NameDefault(owner) => WithDefaultOwner(c, owner)
    case NarrowTo(owner) => Narrow(c, owner)
    case FoldHostRole(group, role) => WithHostResolvedRole(c, group, role)
    case ResolveGroup(group, answer, now) => WithGroupRole(c, group, answer, now)
    case ResolveForwarded(owner, isForwarder, granted, now) => WithForwardedOwner(c, owner, isForwarder, granted, now)
    case SealScope => Seal(c)
    case SetExpiry(expiresAt) => Some(c.(expiresAt := expiresAt))
    case SetEpoch(epoch) => Some(c.(epoch := epoch))
  }

  /** A refused operation leaves the holder with the context it had. */
  function Try(c: Context, op: Op): Context {
    var next := Perform(c, op);
    if next.Some? then next.value else c
  }

  function Do(c: Context, ops: seq<Op>): Context {
    if ops == [] then c else Try(Do(c, ops[..|ops| - 1]), ops[|ops| - 1])
  }

  datatype Origin =
    | Resolved(roles: OwnerRoles, path: AuthPath, writer: Writer)
    | Forwarding(subject: OwnerId, owner: OwnerId, writer: Writer)
    | ForSystemWork(roles: OwnerRoles)
    | Insecure(owner: OwnerId)
    | Refused(owner: OwnerId)

  function Create(origin: Origin): Context {
    match origin
    case Resolved(roles, path, writer) => ServerResolved(roles, path, writer)
    case Forwarding(subject, owner, writer) => FromForwardedOwner(subject, owner, writer)
    case ForSystemWork(roles) => ForSystem(roles)
    case Insecure(owner) => ForInsecureSingleOwner(owner)
    case Refused(owner) => DeniedForOwner(owner)
  }

  // ---- what every reachable context keeps ---------------------------------------------

  /** The role map and the sets derived from it. */
  ghost predicate RolesAgree(c: Context) {
    && (c.roles.None? ==> c.accessible == {} && c.defaultOwner.None? && c.state == Unsealed(None) && c.forwarded.None?)
    && (c.roles.Some? ==> c.accessible == c.roles.value.Readable(Fact) && c.subject == Some(c.roles.value.subject))
    && (c.defaultOwner.Some? ==> c.roles.Some? && c.defaultOwner.value in c.roles.value.roles)
  }

  /** A sealed witness carries the context's own roles and writer. */
  ghost predicate SealAgrees(c: Context) {
    && (c.state.Sealed? ==> c.roles == Some(c.state.scope.roles) && c.writer == Some(c.state.scope.writer))
    && (c.state.Sealed? && c.state.scope.goalPrincipal.Some? ==>
          c.path.HostBearer? && c.forwarded.None? && c.state.scope.selected.None? && c.state.scope.goalPrincipal == c.subject)
  }

  /** A confined context has a role for its one owner and no other. */
  ghost predicate Confined(c: Context, owner: OwnerId) {
    c.state.ConfinedTo() == Some(owner) && c.roles.Some? && c.roles.value.roles.Keys == {owner}
  }

  /** A forwarded context names at most its claimed owner, never manages and never writes Goals. */
  ghost predicate ForwardedStays(c: Context) {
    c.forwarded.Some? ==>
      && c.roles.Some?
      && forall owner :: owner in c.roles.value.roles ==>
           owner == c.forwarded.value && !c.roles.value.roles[owner].manage && !c.roles.value.roles[owner].write.Allows(Goal)
  }

  ghost predicate Inv(c: Context) {
    && RolesAgree(c)
    && SealAgrees(c)
    && (c.state.ConfinedTo().Some? ==> Confined(c, c.state.ConfinedTo().value))
    && ForwardedStays(c)
  }

  lemma CreateEstablishesInv(origin: Origin)
    ensures Inv(Create(origin))
  {
  }

  lemma NarrowKeepsInv(c: Context, owner: OwnerId)
    requires Inv(c) && Narrow(c, owner).Some?
    ensures Inv(Narrow(c, owner).value) && Confined(Narrow(c, owner).value, owner)
  {
  }

  /** Narrowing keeps exactly the rights held on the one owner: nothing is gained there, nothing is lost. */
  lemma NarrowingKeepsExactlyThatOwner(c: Context, owner: OwnerId, other: OwnerId, kind: AccessKind)
    requires Narrow(c, owner).Some?
    ensures var narrowed := Narrow(c, owner).value;
            && (narrowed.MayRead(other, kind) <==> other == owner && c.MayRead(owner, kind))
            && (narrowed.MayWrite(other, kind) <==> other == owner && c.MayWrite(owner, kind))
            && (narrowed.MayManage(other) <==> other == owner && c.MayManage(owner))
  {
  }

  lemma GroupRoleKeepsInv(c: Context, group: OwnerId, answer: Option<Role>, now: nat)
    requires Inv(c) && WithGroupRole(c, group, answer, now).Some?
    ensures Inv(WithGroupRole(c, group, answer, now).value)
  {
  }

  lemma HostRoleKeepsInv(c: Context, group: OwnerId, role: Role)
    requires Inv(c) && WithHostResolvedRole(c, group, role).Some?
    ensures Inv(WithHostResolvedRole(c, group, role).value)
  {
  }

  lemma ForwardedKeepsInv(c: Context, owner: OwnerId, isForwarder: bool, answer: Option<ForwarderRole>, now: nat)
    requires Inv(c) && WithForwardedOwner(c, owner, isForwarder, answer, now).Some?
    ensures var next := WithForwardedOwner(c, owner, isForwarder, answer, now).value;
            Inv(next) && Confined(next, owner)
  {
  }

  lemma SealKeepsInv(c: Context)
    requires Inv(c) && Seal(c).Some?
    ensures Inv(Seal(c).value)
  {
    var confined := c.state.ConfinedTo();
    if confined.Some? {
      assert c.roles.value.roles == map[confined.value := c.roles.value.roles[confined.value]];
    }
  }

  lemma PerformKeepsInv(c: Context, op: Op)
    requires Inv(c)
    ensures Inv(Try(c, op))
  {
    if Perform(c, op).Some? {
      match op
      case NarrowTo(owner) => NarrowKeepsInv(c, owner);
      case FoldHostRole(group, role) => HostRoleKeepsInv(c, group, role);
      case ResolveGroup(group, answer, now) => GroupRoleKeepsInv(c, group, answer, now);
      case ResolveForwarded(owner, isForwarder, granted, now) => ForwardedKeepsInv(c, owner, isForwarder, granted, now);
      case SealScope => SealKeepsInv(c);
      case _ =>
    }
  }

  lemma {:induction false} DoKeepsInv(c: Context, ops: seq<Op>)
    requires Inv(c)
    ensures Inv(Do(c, ops))
  {
    if ops != [] {
      DoKeepsInv(c, ops[..|ops| - 1]);
      PerformKeepsInv(Do(c, ops[..|ops| - 1]), ops[|ops| - 1]);
    }
  }

  /**
    In every reachable context the accessible owners are those readable at Fact, a default owner
    has a role, a sealed witness has the context's own roles and writer, and a forwarded
    context names at most its claimed owner, never manages and never writes Goals.
   */
  lemma EveryReachableContext(origin: Origin, ops: seq<Op>)
    ensures Inv(Do(Create(origin), ops))
  {
    CreateEstablishesInv(origin);
    DoKeepsInv(Create(origin), ops);
  }

  // ---- confinement --------------------------------------------------------------------

  lemma PerformKeepsConfinement(c: Context, op: Op, owner: OwnerId)
    requires Inv(c) && Confined(c, owner)
    ensures Confined(Try(c, op), owner)
    ensures c.forwarded.None? ==> Try(c, op).roles.value.roles == c.roles.value.roles
    ensures Try(c, op).forwarded == c.forwarded
  {
    if Perform(c, op).Some? {
      match op
      case NarrowTo(to) => NarrowKeepsInv(c, to);
      case ResolveForwarded(to, isForwarder, granted, now) => ForwardedKeepsInv(c, to, isForwarder, granted, now);
      case _ =>
    }
  }

  /** `c` names no owner but this one anywhere, lost its Goal lane, and unforwarded kept the role it was narrowed with. */
  ghost predicate ConfinedForGood(narrowed: Context, c: Context, owner: OwnerId) {
    && Inv(c) && Confined(c, owner) && c.forwarded == narrowed.forwarded
    && c.accessible <= {owner}
    && (c.defaultOwner.Some? ==> c.defaultOwner.value == owner)
    && (c.state.Sealed? ==> c.state.scope.roles.roles.Keys == {owner} && c.state.scope.goalPrincipal.None?)
    && narrowed.roles.Some? && (c.forwarded.None? ==> c.roles.value.roles == narrowed.roles.value.roles)
  }

  lemma {:induction false} ConfinementIsForever(start: Context, owner: OwnerId, after: seq<Op>)
    requires Inv(start) && Narrow(start, owner).Some?
    ensures ConfinedForGood(Narrow(start, owner).value, Do(Narrow(start, owner).value, after), owner)
    decreases |after|
  {
    var narrowed := Narrow(start, owner).value;
    NarrowKeepsInv(start, owner);
    if after != [] {
      var n := |after| - 1;
      ConfinementIsForever(start, owner, after[..n]);
      PerformKeepsConfinement(Do(narrowed, after[..n]), after[n], owner);
      PerformKeepsInv(Do(narrowed, after[..n]), after[n]);
    }
  }

  /**
    Once narrowed to an owner, no sequence of operations gives a context with a role, an
    accessible owner, a default or a sealed role for anyone else, or a Goal lane; and without a
    forwarding claim the one role it has never changes.
   */
  lemma NarrowingIsForever(origin: Origin, before: seq<Op>, owner: OwnerId, after: seq<Op>)
    requires Narrow(Do(Create(origin), before), owner).Some?
    ensures var narrowed := Narrow(Do(Create(origin), before), owner).value;
            ConfinedForGood(narrowed, Do(narrowed, after), owner)
  {
    EveryReachableContext(origin, before);
    ConfinementIsForever(Do(Create(origin), before), owner, after);
  }

  /** A reachable context, confined or not, seals exactly when it has roles and a writer. */
  lemma ReachableContextsSeal(origin: Origin, ops: seq<Op>)
    ensures var c := Do(Create(origin), ops);
            Seal(c).Some? <==> c.roles.Some? && c.writer.Some?
  {
    EveryReachableContext(origin, ops);
  }

  lemma PerformKeepsSealedWriter(c: Context, op: Op)
    requires Inv(c) && c.state.Sealed?
    ensures Try(c, op).state.Sealed? && Try(c, op).state.scope.writer == c.state.scope.writer
    ensures Try(c, op).writer == c.writer
  {
  }

  /** Once sealed, a context stays sealed and its writer is never rebound. */
  lemma {:induction false} SealedWriterIsForever(origin: Origin, before: seq<Op>, after: seq<Op>)
    requires Do(Create(origin), before).state.Sealed?
    ensures var sealed := Do(Create(origin), before);
            var c := Do(sealed, after);
            && Inv(c) && c.state.Sealed?
            && c.state.scope.writer == sealed.state.scope.writer && c.writer == sealed.writer
    decreases |after|
  {
    EveryReachableContext(origin, before);
    if after != [] {
      var n := |after| - 1;
      SealedWriterIsForever(origin, before, after[..n]);
      PerformKeepsSealedWriter(Do(Do(Create(origin), before), after[..n]), after[n]);
      PerformKeepsInv(Do(Do(Create(origin), before), after[..n]), after[n]);
    }
  }

  /** Sealing a reachable context changes only its state: its own roles, writer, expiry and confinement are sealed. */
  lemma SealsWhatTheContextHas(origin: Origin, ops: seq<Op>)
    requires Seal(Do(Create(origin), ops)).Some?
    ensures var c := Do(Create(origin), ops);
            var scope := Seal(c).value.state.scope;
            && Seal(c).value == c.(state := Sealed(scope))
            && scope.expiresAt == c.expiresAt && Some(scope.writer) == c.writer && Some(scope.roles) == c.roles
            && scope.selected == c.state.ConfinedTo()
  {
    EveryReachableContext(origin, ops);
    var c := Do(Create(origin), ops);
    if c.state.ConfinedTo().Some? {
      var owner := c.state.ConfinedTo().value;
      assert c.roles.value.roles == map[owner := c.roles.value.roles[owner]];
    }
  }

  /** Sealed to end by `end`, and its own expiry with it unless that is set again. */
  predicate SealedUntil(c: Context, end: nat, resets: bool) {
    c.state.Sealed? && EndsBy(c.state.scope.expiresAt, end) && (!resets ==> EndsBy(c.expiresAt, end))
  }

  lemma PerformKeepsSealedExpiry(c: Context, op: Op, end: nat, resets: bool)
    requires SealedUntil(c, end, resets) && if resets then !op.SealScope? else !op.SetExpiry?
    ensures SealedUntil(Try(c, op), end, resets)
  {
    if op.ResolveForwarded? {
      assert !resets ==> EndsBy(Earlier(c.expiresAt, c.state.scope.expiresAt), end);
    }
  }

  /**
    Once a context that expires at `end` is sealed, its witness expires by then whatever follows,
    short of setting a new expiry and sealing again: from `end` on no group and no forwarding resolves.
   */
  lemma {:induction false} SealedExpiryIsForever(origin: Origin, before: seq<Op>, end: nat, after: seq<Op>)
    requires var c := Do(Create(origin), before); c.expiresAt == Some(end) && Seal(c).Some?
    requires (forall i :: 0 <= i < |after| ==> !after[i].SetExpiry?) || (forall i :: 0 <= i < |after| ==> !after[i].SealScope?)
    ensures var c := Do(Seal(Do(Create(origin), before)).value, after);
            && c.state.Sealed? && EndsBy(c.state.scope.expiresAt, end)
            && (forall group, answer, now :: end <= now ==> WithGroupRole(c, group, answer, now).None?)
            && (forall owner, isForwarder, answer, now :: end <= now ==>
                  WithForwardedOwner(c, owner, isForwarder, answer, now).None?)
  {
    SealsWhatTheContextHas(origin, before);
    RunKeepsSealedExpiry(Seal(Do(Create(origin), before)).value, end,
                         exists i :: 0 <= i < |after| && after[i].SetExpiry?, after);
  }

  lemma {:induction false} RunKeepsSealedExpiry(c: Context, end: nat, resets: bool, after: seq<Op>)
    requires SealedUntil(c, end, resets)
    requires forall i :: 0 <= i < |after| ==> if resets then !after[i].SealScope? else !after[i].SetExpiry?
    ensures SealedUntil(Do(c, after), end, resets)
    decreases |after|
  {
    if after != [] {
      var n := |after| - 1;
      RunKeepsSealedExpiry(c, end, resets, after[..n]);
      PerformKeepsSealedExpiry(Do(c, after[..n]), after[n], end, resets);
    }
  }

  /** A writer is attested exactly to an unsealed context that is not denied, and is the one a sealing then binds. */
  lemma AttestedWriterIsSealed(origin: Origin, ops: seq<Op>, writer: Writer)
    ensures var c := Do(Create(origin), ops);
            var attested := WithAttestedWriter(c, writer);
            && (attested.Some? <==> c.state.Unsealed? && !Create(origin).path.Denied?)
            && (attested.Some? ==> attested.value == c.(writer := Some(writer)))
            && (attested.Some? && c.roles.Some? ==>
                  Seal(attested.value).Some? && Seal(attested.value).value.state.scope.writer == writer)
  {
    EveryReachableContext(origin, ops);
    PathAndClaimAreForever(origin, ops);
  }

  /** Who a context is at first: its roles, writer, path and claim, and that system work and a single owner start sealed. */
  lemma KnownAtFirst(origin: Origin)
    ensures var c := Create(origin);
            && c.expiresAt.None? && c.defaultOwner.None? && c.trustedModel.None? && c.epoch == 0
            && (c.state.Sealed? <==> origin.ForSystemWork? || origin.Insecure?)
            && (c.state.Sealed? ==> c.state.scope.expiresAt.None? && c.state.scope.goalPrincipal.None?)
            && c.state.ConfinedTo() == (if origin.Insecure? then Some(origin.owner) else None)
            && match origin
               case Resolved(roles, path, writer) =>
                 && c.roles == Some(roles) && c.subject == Some(roles.subject) && c.path == path && c.forwarded.None?
                 && c.writer == (if path.Denied? then None else Some(writer))
               case Forwarding(subject, owner, writer) =>
                 && c.roles == Some(OwnerRoles(subject, map[])) && c.subject == Some(subject) && c.path == HostBearer
                 && c.forwarded == Some(owner) && c.writer == Some(writer)
               case ForSystemWork(roles) =>
                 && c.roles == Some(roles) && c.subject == Some(roles.subject) && c.path == System && c.forwarded.None?
                 && c.writer == Some(Writer(roles.subject, None))
               case Insecure(owner) =>
                 && c.roles == Some(OwnerRoles(owner, map[owner := PERSONAL])) && c.subject == Some(owner)
                 && c.path == HostBearer && c.forwarded.None? && c.writer == Some(Writer(owner, None))
               case Refused(_) =>
                 c.roles.None? && c.subject.None? && c.path == Denied && c.forwarded.None? && c.writer.None?
  {
  }

  /** At first every key is admitted, to a refused caller none. */
  lemma AdmittedAtFirst(origin: Origin, key: ScopeKey, isRead: bool)
    ensures Create(origin).Admits(key, isRead) <==> !origin.Refused?
  {
  }

  // ---- exactly when authority is granted ----------------------------------------------

  /** A reachable context narrows to exactly the owners it has a role for, sealed or not. */
  lemma NarrowsToEveryHeldOwner(origin: Origin, ops: seq<Op>, owner: OwnerId)
    ensures var c := Do(Create(origin), ops);
            Narrow(c, owner).Some? <==> c.roles.Some? && owner in c.roles.value.roles
  {
    EveryReachableContext(origin, ops);
  }

  /** An operation that carries a host's answer about this owner. */
  predicate AnswersFor(op: Op, owner: OwnerId) {
    match op
    case FoldHostRole(group, _) => group == owner
    case ResolveGroup(group, _, _) => group == owner
    case ResolveForwarded(to, _, _, _) => to == owner
    case _ => false
  }

  function RoleOf(c: Context, owner: OwnerId): Option<Role> {
    if c.roles.None? then None else c.roles.value.RoleFor(owner)
  }

  lemma PerformGrantsNothingUnanswered(c: Context, op: Op, owner: OwnerId)
    requires Inv(c) && !AnswersFor(op, owner)
    ensures RoleOf(Try(c, op), owner).None? || RoleOf(Try(c, op), owner) == RoleOf(c, owner)
  {
  }

  /** A role comes from the start or from a host's answer about that very owner: nothing else grants or changes one. */
  lemma {:induction false} NoRoleWithoutAnAnswer(origin: Origin, ops: seq<Op>, owner: OwnerId)
    requires forall i :: 0 <= i < |ops| ==> !AnswersFor(ops[i], owner)
    ensures var role := RoleOf(Do(Create(origin), ops), owner);
            role.None? || role == RoleOf(Create(origin), owner)
    decreases |ops|
  {
    if ops != [] {
      var n := |ops| - 1;
      NoRoleWithoutAnAnswer(origin, ops[..n], owner);
      EveryReachableContext(origin, ops[..n]);
      PerformGrantsNothingUnanswered(Do(Create(origin), ops[..n]), ops[n], owner);
    }
  }

  /** A forwarding claim resolves for its own owner, unexpired, for a forwarder the registry knows. */
  lemma ForwardingResolvesExactly(
    origin: Origin, ops: seq<Op>, owner: OwnerId, isForwarder: bool, answer: Option<ForwarderRole>, now: nat)
    ensures var c := Do(Create(origin), ops);
            var next := WithForwardedOwner(c, owner, isForwarder, answer, now);
            && (next.Some? <==>
                  && c.state.Sealed? && c.forwarded == Some(owner) && isForwarder && answer.Some?
                  && !Expired(c.expiresAt, now) && !Expired(c.state.scope.expiresAt, now))
            && (next.Some? ==>
                  && next.value.roles.value.roles == map[owner := answer.value.AsRole()]
                  && next.value.state.scope.expiresAt == next.value.expiresAt
                  && next.value.expiresAt in {c.expiresAt, c.state.scope.expiresAt}
                  && (forall e :: EndsBy(c.expiresAt, e) || EndsBy(c.state.scope.expiresAt, e) ==> EndsBy(next.value.expiresAt, e))
                  && next.value.writer == c.writer && next.value.state.scope.writer == c.state.scope.writer)
  {
    EveryReachableContext(origin, ops);
  }

  /** A group resolves only into a sealed, unexpired, unconfined, unforwarded context, and changes only that group. */
  lemma GroupResolvesExactly(
    origin: Origin, ops: seq<Op>, group: OwnerId, answer: Option<Role>, now: nat, owner: OwnerId, kind: AccessKind)
    ensures var c := Do(Create(origin), ops);
            var next := WithGroupRole(c, group, answer, now);
            && (next.Some? <==>
                  && c.state.Sealed? && !Expired(c.state.scope.expiresAt, now) && c.state.scope.selected.None?
                  && c.forwarded.None? && answer.Some?)
            && (next.Some? && (owner != group || group == c.subject.value) ==>
                  && next.value.MayRead(owner, kind) == c.MayRead(owner, kind)
                  && next.value.MayWrite(owner, kind) == c.MayWrite(owner, kind)
                  && next.value.MayManage(owner) == c.MayManage(owner))
            && (next.Some? && group != c.subject.value ==>
                  && next.value.MayRead(group, kind) == answer.value.read.Allows(kind)
                  && next.value.MayWrite(group, kind) == answer.value.write.Allows(kind)
                  && next.value.MayManage(group) == answer.value.manage)
  {
    EveryReachableContext(origin, ops);
  }

  /** A host's role folds in only before sealing, confinement and forwarding, and changes only that group. */
  lemma HostRoleFoldsExactly(
    origin: Origin, ops: seq<Op>, group: OwnerId, role: Role, owner: OwnerId, kind: AccessKind)
    ensures var c := Do(Create(origin), ops);
            var next := WithHostResolvedRole(c, group, role);
            && (next.Some? <==> c.roles.Some? && c.state == Unsealed(None) && c.forwarded.None?)
            && (next.Some? && (owner != group || Some(group) == c.subject) ==>
                  && next.value.MayRead(owner, kind) == c.MayRead(owner, kind)
                  && next.value.MayWrite(owner, kind) == c.MayWrite(owner, kind)
                  && next.value.MayManage(owner) == c.MayManage(owner))
            && (next.Some? && Some(group) != c.subject ==>
                  && next.value.MayRead(group, kind) == role.read.Allows(kind)
                  && next.value.MayWrite(group, kind) == role.write.Allows(kind)
                  && next.value.MayManage(group) == role.manage)
  {
    EveryReachableContext(origin, ops);
  }

  /** A default owner is named exactly among those with a role, and narrowing withdraws it. */
  lemma DefaultOwnerExactly(origin: Origin, ops: seq<Op>, owner: OwnerId, to: OwnerId)
    ensures var c := Do(Create(origin), ops);
            var named := WithDefaultOwner(c, owner);
            && (named.Some? <==> c.roles.Some? && owner in c.roles.value.roles)
            && (named.Some? ==> named.value == c.(defaultOwner := Some(owner)))
            && (named.Some? && Narrow(named.value, to).Some? ==> Narrow(named.value, to).value.defaultOwner.None?)
  {
    EveryReachableContext(origin, ops);
  }

  lemma PerformKeepsPathAndClaim(c: Context, op: Op)
    ensures Try(c, op).path == c.path && Try(c, op).forwarded == c.forwarded
  {
  }

  lemma {:induction false} PathAndClaimAreForever(origin: Origin, ops: seq<Op>)
    ensures Do(Create(origin), ops).path == Create(origin).path
    ensures Do(Create(origin), ops).forwarded == Create(origin).forwarded
  {
    if ops != [] {
      PathAndClaimAreForever(origin, ops[..|ops| - 1]);
      PerformKeepsPathAndClaim(Do(Create(origin), ops[..|ops| - 1]), ops[|ops| - 1]);
    }
  }

  /** Only a run that began with a host bearer's own roles ever holds a Goal lane, and it is that subject's. */
  lemma GoalLaneIsTheBearersOwn(origin: Origin, ops: seq<Op>)
    requires var c := Do(Create(origin), ops); c.state.Sealed? && c.state.scope.goalPrincipal.Some?
    ensures origin.Resolved? && origin.path.HostBearer?
    ensures Do(Create(origin), ops).state.scope.goalPrincipal == Create(origin).subject
  {
    EveryReachableContext(origin, ops);
    PathAndClaimAreForever(origin, ops);
    SubjectIsForever(origin, ops);
    if origin.Insecure? {
      InsecureStaysConfined(origin.owner, ops);
    }
  }

  lemma {:induction false} SubjectIsForever(origin: Origin, ops: seq<Op>)
    ensures Do(Create(origin), ops).subject == Create(origin).subject
  {
    if ops != [] {
      SubjectIsForever(origin, ops[..|ops| - 1]);
    }
  }

  /** Such a run gains the lane by any sealing before it is confined, and by none after. */
  lemma SealingGrantsTheGoalLaneExactly(origin: Origin, ops: seq<Op>)
    requires Seal(Do(Create(origin), ops)).Some?
    ensures var c := Do(Create(origin), ops);
            Seal(c).value.state.scope.goalPrincipal.Some? <==>
            origin.Resolved? && origin.path.HostBearer? && c.state.ConfinedTo().None?
  {
    EveryReachableContext(origin, ops);
    PathAndClaimAreForever(origin, ops);
    if origin.Insecure? {
      InsecureStaysConfined(origin.owner, ops);
    }
  }

  lemma {:induction false} InsecureStaysConfined(owner: OwnerId, ops: seq<Op>)
    ensures Confined(Do(ForInsecureSingleOwner(owner), ops), owner)
  {
    CreateEstablishesInv(Insecure(owner));
    if ops != [] {
      var n := |ops| - 1;
      InsecureStaysConfined(owner, ops[..n]);
      DoKeepsInv(ForInsecureSingleOwner(owner), ops[..n]);
      PerformKeepsConfinement(Do(ForInsecureSingleOwner(owner), ops[..n]), ops[n], owner);
    }
  }

  lemma PerformKeepsDenial(c: Context, op: Op)
    requires Inv(c) && c.path.Denied? && c.writer.None?
    ensures Try(c, op).path.Denied? && Try(c, op).writer.None?
  {
  }

  /** Nothing done to a denied context ever gives it a writer or seals it. */
  lemma {:induction false} DenialIsForever(origin: Origin, ops: seq<Op>)
    requires Create(origin).path.Denied?
    ensures var c := Do(Create(origin), ops);
            c.path.Denied? && c.writer.None? && c.state.Unsealed? && Seal(c).None?
    decreases |ops|
  {
    EveryReachableContext(origin, ops);
    if ops != [] {
      var n := |ops| - 1;
      DenialIsForever(origin, ops[..n]);
      EveryReachableContext(origin, ops[..n]);
      PerformKeepsDenial(Do(Create(origin), ops[..n]), ops[n]);
    }
  }

  // ---- settings -----------------------------------------------------------------------

  /** Only restrictions touch what is served, and each only narrows it. */
  lemma {:induction false} ServedOverARun(origin: Origin, ops: seq<Op>, key: ScopeKey, isRead: bool)
    ensures Do(Create(origin), ops).served.Admits(key, isRead) <==>
            && Create(origin).served.Admits(key, isRead)
            && forall i :: 0 <= i < |ops| && ops[i].RestrictSurface? ==> ops[i].surface.Admits(key, isRead)
    decreases |ops|
  {
    if ops != [] {
      var n := |ops| - 1;
      ServedOverARun(origin, ops[..n], key, isRead);
      assert forall i :: 0 <= i < n ==> ops[..n][i] == ops[i];
      ServedAfter(Do(Create(origin), ops[..n]), ops[n], key, isRead);
    }
  }

  lemma ServedAfter(c: Context, op: Op, key: ScopeKey, isRead: bool)
    ensures Try(c, op).served.Admits(key, isRead) <==>
            c.served.Admits(key, isRead) && (op.RestrictSurface? ==> op.surface.Admits(key, isRead))
  {
  }

  /** The operation sets what an earlier one of its kind, or a forwarding resolution for the expiry, may have set. */
  predicate Resets(later: Op, earlier: Op) {
    match earlier
    case SetToolScope(_) => later.SetToolScope?
    case BindModel(_) => later.BindModel?
    case SetEpoch(_) => later.SetEpoch?
    case SetExpiry(_) => later.SetExpiry? || later.ResolveForwarded?
    case _ => false
  }

  predicate Stands(c: Context, op: Op) {
    match op
    case SetToolScope(tools) => c.tools == tools
    case BindModel(model) => c.trustedModel == Some(model)
    case SetEpoch(epoch) => c.epoch == epoch
    case SetExpiry(expiresAt) => c.expiresAt == expiresAt
    case _ => true
  }

  lemma StandsAfter(c: Context, earlier: Op, op: Op)
    requires Stands(c, earlier) && !Resets(op, earlier)
    ensures Stands(Try(c, op), earlier)
  {
  }

  /** A tool scope, model, epoch or expiry that was set stands until one of its kind is set again. */
  lemma {:induction false} SettingsStand(origin: Origin, ops: seq<Op>, i: nat)
    requires i < |ops| && forall j :: i < j < |ops| ==> !Resets(ops[j], ops[i])
    ensures Stands(Do(Create(origin), ops), ops[i])
    decreases |ops|
  {
    var n := |ops| - 1;
    if i < n {
      SettingsStand(origin, ops[..n], i);
      StandsAfter(Do(Create(origin), ops[..n]), ops[i], ops[n]);
    }
  }
}
