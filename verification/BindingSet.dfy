/**
  The multi-route authenticator: which of several issuer and audience bindings accepts a
  token, and how much of a host's own shape of the resulting context is accepted.
 */
module BindingSet {
  import opened Wrappers
  import opened Access
  import opened Capabilities
  import opened Authz

  datatype AuthError = InvalidCredentials
  datatype Route = Route(issuer: string, audience: string)
  datatype RoleShape = ServerResolvedRoles | WithToolScope(tools: ToolScope) | Host
  datatype Binding = Binding(route: Route, allowedSubjects: Option<set<string>>, shape: RoleShape)

  /**
    What a validator read from a token it accepted. `owner`, `author` and `via` are the
    forwarding claims, `None` where one is missing or not an id.
   */
  datatype Token = Token(
    subject: string, expiresAt: nat, owner: Option<OwnerId>, author: Option<OwnerId>, via: Option<Option<OwnerId>>)

  // ---- building the set ---------------------------------------------------------------

  datatype SetError = Empty | DuplicateRoute(route: Route)

  ghost predicate DistinctRoutes(bindings: seq<Binding>) {
    forall i, j :: 0 <= i < j < |bindings| ==> bindings[i].route != bindings[j].route
  }

  /** Does binding `i` repeat the route of an earlier one? */
  ghost predicate Repeats(bindings: seq<Binding>, i: nat)
    requires i < |bindings|
  {
    exists j :: 0 <= j < i && bindings[j].route == bindings[i].route
  }

  /** Accepts exactly the non-empty lists of distinct routes; otherwise names the first repeat. */
  method New(bindings: seq<Binding>) returns (r: Result<seq<Binding>, SetError>)
    ensures r.Ok? <==> bindings != [] && DistinctRoutes(bindings)
    ensures r.Ok? ==> r.value == bindings
    ensures r == Err(Empty) <==> bindings == []
    ensures r.Err? && r.error.DuplicateRoute? ==>
              exists i :: && 0 <= i < |bindings| && DistinctRoutes(bindings[..i])
                          && Repeats(bindings, i) && r.error.route == bindings[i].route
  {
    if bindings == [] {
      return Err(Empty);
    }
    var seen: set<Route> := {};
    var i := 0;
    while i < |bindings|
      invariant 0 <= i <= |bindings|
      invariant forall route :: route in seen <==> exists j :: 0 <= j < i && bindings[j].route == route
      invariant DistinctRoutes(bindings[..i])
    {
      if bindings[i].route in seen {
        assert Repeats(bindings, i);
        return Err(DuplicateRoute(bindings[i].route));
      }
      seen := seen + {bindings[i].route};
      i := i + 1;
    }
    assert bindings[..i] == bindings;
    return Ok(bindings);
  }

  // ---- the issuer a token claims ------------------------------------------------------

  /** One `iss` member of a token's payload: a string, a list of strings, or anything else. */
  datatype Iss = Text(issuer: string) | Texts(issuers: seq<string>) | NoText

  /** What the payload of a token decodes to: its `iss` members in order, or nothing readable. */
  datatype Payload = Garbled | Claims(iss: seq<Iss>)

  /** The place of the first dot at or after `from`, or the length. */
  function DotFrom(token: string, from: nat): (i: nat)
    requires from <= |token|
    ensures from <= i <= |token|
    decreases |token| - from
  {
    if from == |token| || token[from] == '.' then from else DotFrom(token, from + 1)
  }

  /** The second of a token's dot-separated segments. */
  function SecondSegment(token: string): Option<string> {
    var dot := DotFrom(token, 0);
    if dot == |token| then None else Some(token[dot + 1..DotFrom(token, dot + 1)])
  }

  lemma {:induction false} DotIsFirst(token: string, from: nat, at: nat)
    requires from <= at <= |token| && '.' !in token[from..at] && (at == |token| || token[at] == '.')
    ensures DotFrom(token, from) == at
    decreases at - from
  {
    if from < at {
      assert token[from] == token[from..at][0] && token[from + 1..at] == token[from..at][1..];
      DotIsFirst(token, from + 1, at);
    }
  }

  /** What lies between the first dot and the second, or the end; without a dot there is none. */
  lemma SecondSegmentExactly(token: string, first: string, second: string, rest: string)
    requires '.' !in first && '.' !in second && (rest == [] || rest[0] == '.')
    ensures SecondSegment(first + ['.'] + second + rest) == Some(second)
    ensures '.' !in token ==> SecondSegment(token).None?
  {
    var all, dot := first + ['.'] + second + rest, |first|;
    assert all[0..dot] == first && all[dot + 1..dot + 1 + |second|] == second;
    DotIsFirst(all, 0, dot);
    DotIsFirst(all, dot + 1, dot + 1 + |second|);
    if '.' !in token {
      assert token[0..|token|] == token;
      DotIsFirst(token, 0, |token|);
    }
  }

  /** The decoded payload; `decode` stands for base64url and JSON. */
  function PayloadOf(token: string, decode: string -> Payload): Payload {
    var segment := SecondSegment(token);
    if segment.None? then Garbled else decode(segment.value)
  }

  /** The claimed issuer: a payload with exactly one `iss`, and that a string. */
  function ClaimedIssuer(token: string, decode: string -> Payload): Option<string> {
    var payload := PayloadOf(token, decode);
    if payload.Claims? && |payload.iss| == 1 && payload.iss[0].Text? then Some(payload.iss[0].issuer) else None
  }

  /** Some `iss` member names the issuer, alone or in a list. */
  ghost predicate NamesIssuer(payload: Payload, issuer: string) {
    payload.Claims? && exists i :: 0 <= i < |payload.iss| && IssNames(payload.iss[i], issuer)
  }

  predicate IssNames(iss: Iss, issuer: string) {
    iss == Text(issuer) || (iss.Texts? && issuer in iss.issuers)
  }

  /** The one thing asked of validators: a binding accepts only a token that names its issuer. */
  ghost predicate AcceptsOnlyItsIssuer(
    bindings: seq<Binding>, token: string, decode: string -> Payload, validate: Binding -> Option<Token>)
  {
    forall i :: 0 <= i < |bindings| && validate(bindings[i]).Some? ==>
                  NamesIssuer(PayloadOf(token, decode), bindings[i].route.issuer)
  }

  /** A lone plain `iss` is claimed and nothing else is, and a claimed issuer is the only one the token names. */
  lemma ClaimedIssuerIsTheOnlyOne(token: string, decode: string -> Payload, issuer: string)
    ensures ClaimedIssuer(token, decode) == Some(issuer) <==> PayloadOf(token, decode) == Claims([Text(issuer)])
    ensures NamesIssuer(PayloadOf(token, decode), issuer) ==>
              ClaimedIssuer(token, decode).None? || ClaimedIssuer(token, decode) == Some(issuer)
  {
  }

  // ---- choosing the one binding -------------------------------------------------------

  /** Every binding of the list that accepts the token, with what it read. */
  function Matches(bindings: seq<Binding>, validate: Binding -> Option<Token>): seq<(Binding, Token)> {
    if bindings == [] then []
    else
      var n := |bindings| - 1;
      var earlier := Matches(bindings[..n], validate);
      if validate(bindings[n]).Some? then earlier + [(bindings[n], validate(bindings[n]).value)] else earlier
  }

  /** An unreadable claimed issuer selects every binding. */
  predicate Selects(claimed: Option<string>, binding: Binding) {
    claimed.None? || claimed.value == binding.route.issuer
  }

  function Candidates(bindings: seq<Binding>, claimed: Option<string>): seq<Binding> {
    if bindings == [] then []
    else
      var n := |bindings| - 1;
      var earlier := Candidates(bindings[..n], claimed);
      if Selects(claimed, bindings[n]) then earlier + [bindings[n]] else earlier
  }

  function Verdict(matches: seq<(Binding, Token)>, ask: Binding -> Answers): Result<Context, AuthError> {
    if |matches| == 1 then AuthzForToken(matches[0].0, matches[0].1, ask(matches[0].0)) else Err(InvalidCredentials)
  }

  /** What trying every binding would return. */
  function FullScan(bindings: seq<Binding>, validate: Binding -> Option<Token>, ask: Binding -> Answers)
    : Result<Context, AuthError>
  {
    Verdict(Matches(bindings, validate), ask)
  }

  /** The loop of the source: skip the bindings of other issuers, collect what validates, take a lone match. */
  method Authenticate(
    bindings: seq<Binding>, token: string, decode: string -> Payload, validate: Binding -> Option<Token>,
    ask: Binding -> Answers) returns (r: Result<Context, AuthError>)
    ensures r == FullScan(Candidates(bindings, ClaimedIssuer(token, decode)), validate, ask)
    ensures AcceptsOnlyItsIssuer(bindings, token, decode, validate) ==> r == FullScan(bindings, validate, ask)
    ensures AcceptsOnlyItsIssuer(bindings, token, decode, validate) && r.Ok? ==>
              exists i :: && 0 <= i < |bindings| && OnlyMatch(bindings, validate, i)
                          && r == AuthzForToken(bindings[i], validate(bindings[i]).value, ask(bindings[i]))
    ensures AcceptsOnlyItsIssuer(bindings, token, decode, validate) ==>
              forall i :: 0 <= i < |bindings| && OnlyMatch(bindings, validate, i) ==>
                r == AuthzForToken(bindings[i], validate(bindings[i]).value, ask(bindings[i]))
  {
    var claimed := ClaimedIssuer(token, decode);
    var matches: seq<(Binding, Token)> := [];
    ghost var candidates: seq<Binding> := [];
    var i := 0;
    while i < |bindings|
      invariant 0 <= i <= |bindings|
      invariant candidates == Candidates(bindings[..i], claimed)
      invariant matches == Matches(candidates, validate)
    {
      assert bindings[..i + 1][..i] == bindings[..i];
      if Selects(claimed, bindings[i]) {
        candidates := candidates + [bindings[i]];
        assert candidates[..|candidates| - 1] == Candidates(bindings[..i], claimed);
        var validated := validate(bindings[i]);
        if validated.Some? {
          matches := matches + [(bindings[i], validated.value)];
        }
      }
      i := i + 1;
    }
    assert bindings[..i] == bindings;
    r := Verdict(matches, ask);
    if AcceptsOnlyItsIssuer(bindings, token, decode, validate) {
      PrefilterChangesNothing(bindings, token, decode, validate);
      if r.Ok? {
        var lone := LoneMatch(bindings, validate);
      }
      forall i | 0 <= i < |bindings| && OnlyMatch(bindings, validate, i)
        ensures r == AuthzForToken(bindings[i], validate(bindings[i]).value, ask(bindings[i]))
      {
        LoneValidatorDecides(bindings, validate, ask, i);
      }
    }
  }

  lemma {:induction false} SelectedMatches(
    bindings: seq<Binding>, claimed: Option<string>, validate: Binding -> Option<Token>)
    requires forall i :: 0 <= i < |bindings| && validate(bindings[i]).Some? ==> Selects(claimed, bindings[i])
    ensures Matches(Candidates(bindings, claimed), validate) == Matches(bindings, validate)
  {
    if bindings != [] {
      var n := |bindings| - 1;
      var earlier := Candidates(bindings[..n], claimed);
      assert forall i :: 0 <= i < n ==> bindings[..n][i] == bindings[i];
      SelectedMatches(bindings[..n], claimed, validate);
      MatchesOfOneMore(earlier, bindings[n], validate);
    }
  }

  lemma MatchesOfOneMore(bindings: seq<Binding>, binding: Binding, validate: Binding -> Option<Token>)
    ensures Matches(bindings + [binding], validate) ==
            Matches(bindings, validate)
            + if validate(binding).Some? then [(binding, validate(binding).value)] else []
  {
    assert (bindings + [binding])[..|bindings|] == bindings;
  }

  /** Skipping the bindings of other issuers loses no match, whatever the payload holds under `iss`. */
  lemma PrefilterChangesNothing(
    bindings: seq<Binding>, token: string, decode: string -> Payload, validate: Binding -> Option<Token>)
    requires AcceptsOnlyItsIssuer(bindings, token, decode, validate)
    ensures Matches(Candidates(bindings, ClaimedIssuer(token, decode)), validate) == Matches(bindings, validate)
  {
    var claimed := ClaimedIssuer(token, decode);
    forall i | 0 <= i < |bindings| && validate(bindings[i]).Some? ensures Selects(claimed, bindings[i]) {
      ClaimedIssuerIsTheOnlyOne(token, decode, bindings[i].route.issuer);
    }
    SelectedMatches(bindings, claimed, validate);
  }

  /** Binding `i` is the only one of the list that accepts the token. */
  ghost predicate OnlyMatch(bindings: seq<Binding>, validate: Binding -> Option<Token>, i: nat)
    requires i < |bindings|
  {
    forall j :: 0 <= j < |bindings| ==> (validate(bindings[j]).Some? <==> j == i)
  }

  lemma {:induction false} NoMatches(bindings: seq<Binding>, validate: Binding -> Option<Token>)
    ensures Matches(bindings, validate) == [] <==> forall j :: 0 <= j < |bindings| ==> validate(bindings[j]).None?
  {
    if bindings != [] {
      var n := |bindings| - 1;
      NoMatches(bindings[..n], validate);
      assert forall j :: 0 <= j < n ==> bindings[..n][j] == bindings[j];
    }
  }

  /** A single match is the only validating binding of the list. */
  lemma {:induction false} LoneMatch(bindings: seq<Binding>, validate: Binding -> Option<Token>) returns (i: nat)
    requires |Matches(bindings, validate)| == 1
    ensures i < |bindings| && OnlyMatch(bindings, validate, i)
    ensures Matches(bindings, validate) == [(bindings[i], validate(bindings[i]).value)]
  {
    var n := |bindings| - 1;
    assert forall j :: 0 <= j < n ==> bindings[..n][j] == bindings[j];
    if validate(bindings[n]).Some? {
      i := n;
      NoMatches(bindings[..n], validate);
    } else {
      i := LoneMatch(bindings[..n], validate);
    }
  }

  lemma {:induction false} OnlyMatchIsFound(bindings: seq<Binding>, validate: Binding -> Option<Token>, i: nat)
    requires i < |bindings| && OnlyMatch(bindings, validate, i)
    ensures Matches(bindings, validate) == [(bindings[i], validate(bindings[i]).value)]
  {
    var n := |bindings| - 1;
    assert forall j :: 0 <= j < n ==> bindings[..n][j] == bindings[j];
    if i < n {
      OnlyMatchIsFound(bindings[..n], validate, i);
    } else {
      NoMatches(bindings[..n], validate);
    }
  }

  /** The only binding that validates the token gives the answer, an acceptance included. */
  lemma LoneValidatorDecides(
    bindings: seq<Binding>, validate: Binding -> Option<Token>, ask: Binding -> Answers, i: nat)
    requires i < |bindings| && OnlyMatch(bindings, validate, i)
    ensures FullScan(bindings, validate, ask) ==
            AuthzForToken(bindings[i], validate(bindings[i]).value, ask(bindings[i]))
  {
    OnlyMatchIsFound(bindings, validate, i);
  }

  /** Without a single such binding the token is refused. */
  lemma OtherwiseRefused(bindings: seq<Binding>, validate: Binding -> Option<Token>, ask: Binding -> Answers)
    requires forall i :: 0 <= i < |bindings| ==> !OnlyMatch(bindings, validate, i)
    ensures FullScan(bindings, validate, ask) == Err(InvalidCredentials)
  {
    if |Matches(bindings, validate)| == 1 {
      var i := LoneMatch(bindings, validate);
    }
  }

  lemma {:induction false} MatchCount(bindings: seq<Binding>, validate: Binding -> Option<Token>, binding: Binding, token: Token)
    ensures multiset(Matches(bindings, validate))[(binding, token)] ==
            if validate(binding) == Some(token) then multiset(bindings)[binding] else 0
  {
    if bindings != [] {
      var n := |bindings| - 1;
      MatchCount(bindings[..n], validate, binding, token);
      assert bindings == bindings[..n] + [bindings[n]];
    }
  }

  lemma ScanIgnoresOrder(
    bindings: seq<Binding>, shuffled: seq<Binding>, validate: Binding -> Option<Token>, ask: Binding -> Answers)
    requires multiset(bindings) == multiset(shuffled)
    ensures FullScan(bindings, validate, ask) == FullScan(shuffled, validate, ask)
  {
    var a, b := Matches(bindings, validate), Matches(shuffled, validate);
    assert multiset(a) == multiset(b) by {
      forall m: (Binding, Token) ensures multiset(a)[m] == multiset(b)[m] {
        MatchCount(bindings, validate, m.0, m.1);
        MatchCount(shuffled, validate, m.0, m.1);
      }
    }
    assert |a| == |multiset(a)| && |b| == |multiset(b)|;
    if |a| == 1 {
      assert a == [a[0]] && b == [b[0]];
      assert b[0] in multiset(a);
    }
  }

  lemma {:induction false} CandidateCount(bindings: seq<Binding>, claimed: Option<string>, binding: Binding)
    ensures multiset(Candidates(bindings, claimed))[binding] ==
            if Selects(claimed, binding) then multiset(bindings)[binding] else 0
  {
    if bindings != [] {
      var n := |bindings| - 1;
      CandidateCount(bindings[..n], claimed, binding);
      assert bindings == bindings[..n] + [bindings[n]];
    }
  }

  /** The prefiltered answer does not depend on the order of the bindings, whatever the validators accept. */
  lemma OrderDoesNotMatter(
    bindings: seq<Binding>, shuffled: seq<Binding>, claimed: Option<string>, validate: Binding -> Option<Token>,
    ask: Binding -> Answers)
    requires multiset(bindings) == multiset(shuffled)
    ensures FullScan(Candidates(bindings, claimed), validate, ask) ==
            FullScan(Candidates(shuffled, claimed), validate, ask)
  {
    var a, b := Candidates(bindings, claimed), Candidates(shuffled, claimed);
    assert multiset(a) == multiset(b) by {
      forall binding: Binding ensures multiset(a)[binding] == multiset(b)[binding] {
        CandidateCount(bindings, claimed, binding);
        CandidateCount(shuffled, claimed, binding);
      }
    }
    ScanIgnoresOrder(a, b, validate, ask);
  }

  // ---- the context of an accepted token -----------------------------------------------

  datatype User = User(id: OwnerId, model: Option<string>)

  /** What the host answers about an accepted token: each `None` covers an error or an unknown subject. */
  datatype Answers = Answers(
    user: Option<User>, modelUsable: bool, isForwarder: Option<bool>, roles: Option<OwnerRoles>,
    shaped: Option<Context>)

  function ContextForToken(user: OwnerId, token: Token, answers: Answers): Result<Context, AuthError> {
    if answers.isForwarder.None? then Err(InvalidCredentials)
    else if answers.isForwarder.value then
      if token.owner.None? || token.author.None? || token.via.None? then Err(InvalidCredentials)
      else Ok(FromForwardedOwner(user, token.owner.value, Writer(token.author.value, token.via.value))
                .(expiresAt := Some(token.expiresAt)))
    else if answers.roles.None? then Err(InvalidCredentials)
    else
      var roles := answers.roles.value;
      Ok(ServerResolved(roles, HostBearer, Writer(roles.subject, None)).(expiresAt := Some(token.expiresAt)))
  }

  function BindModel(c: Context, model: Option<string>, usable: bool): Result<Context, AuthError> {
    if model.None? then Ok(c)
    else if usable then Ok(c.(trustedModel := model))
    else Err(InvalidCredentials)
  }

  function Apply(shape: RoleShape, c: Context, shaped: Option<Context>, expiresAt: nat): Result<Context, AuthError> {
    match shape
    case ServerResolvedRoles => Ok(c)
    case WithToolScope(tools) => Ok(c.(tools := tools))
    case Host => if shaped.None? then Err(InvalidCredentials) else NarrowedByHost(c, shaped.value, expiresAt)
  }

  /** The context the server itself resolves for an accepted token, before any shape. */
  function ResolvedContext(binding: Binding, token: Token, answers: Answers): Result<Context, AuthError> {
    if binding.allowedSubjects.Some? && token.subject !in binding.allowedSubjects.value then Err(InvalidCredentials)
    else if answers.user.None? then Err(InvalidCredentials)
    else
      var c := ContextForToken(answers.user.value.id, token, answers);
      if c.Err? then c else BindModel(c.value, answers.user.value.model, answers.modelUsable)
  }

  function AuthzForToken(binding: Binding, token: Token, answers: Answers): Result<Context, AuthError> {
    var c := ResolvedContext(binding, token, answers);
    if c.Err? then c else Apply(binding.shape, c.value, answers.shaped, token.expiresAt)
  }

  function ReadableOwners(c: Context, kind: AccessKind): (owners: set<OwnerId>)
    ensures forall owner :: owner in owners <==> c.MayRead(owner, kind)
  {
    if c.roles.None? then {} else c.roles.value.Readable(kind)
  }

  function WritableOwners(c: Context, kind: AccessKind): (owners: set<OwnerId>)
    ensures forall owner :: owner in owners <==> c.MayWrite(owner, kind)
  {
    if c.roles.None? then {} else c.roles.value.Writable(kind)
  }

  predicate WidensAt(resolved: Context, shaped: Context, kind: AccessKind) {
    || (exists owner :: owner in ReadableOwners(shaped, kind) &&
                        (!resolved.MayRead(owner, kind) || (shaped.MayManage(owner) && !resolved.MayManage(owner))))
    || (exists owner :: owner in WritableOwners(shaped, kind) && !resolved.MayWrite(owner, kind))
  }

  /** Accept a host's context only when it narrows the resolved one; clamp its expiry, intersect its keys. */
  function NarrowedByHost(resolved: Context, shaped: Context, tokenExpiresAt: nat): Result<Context, AuthError> {
    if || !shaped.path.HostBearer?
       || shaped.subject != resolved.subject
       || shaped.writer != resolved.writer
       || shaped.trustedModel != resolved.trustedModel
       || shaped.forwarded != resolved.forwarded
       || WidensAt(resolved, shaped, Fact) || WidensAt(resolved, shaped, Abstraction)
       || WidensAt(resolved, shaped, Perspective) || WidensAt(resolved, shaped, Goal)
    then Err(InvalidCredentials)
    else Ok(shaped.(expiresAt := Earlier(shaped.expiresAt, Some(tokenExpiresAt)),
                    tools := shaped.tools.Intersect(resolved.tools),
                    served := shaped.served.Restrict(resolved.served)))
  }

  ghost predicate SameIdentity(resolved: Context, shaped: Context) {
    && shaped.path.HostBearer? && shaped.subject == resolved.subject && shaped.writer == resolved.writer
    && shaped.trustedModel == resolved.trustedModel && shaped.forwarded == resolved.forwarded
  }

  /** No wider at this owner and kind, with manage rights compared where the owner can be read. */
  ghost predicate NoWiderAt(resolved: Context, shaped: Context, owner: OwnerId, kind: AccessKind) {
    && (shaped.MayRead(owner, kind) ==> resolved.MayRead(owner, kind))
    && (shaped.MayWrite(owner, kind) ==> resolved.MayWrite(owner, kind))
    && (shaped.MayRead(owner, kind) && shaped.MayManage(owner) ==> resolved.MayManage(owner))
  }

  lemma WidensAtIsNotNarrower(resolved: Context, shaped: Context, kind: AccessKind)
    ensures WidensAt(resolved, shaped, kind) <==> exists owner :: !NoWiderAt(resolved, shaped, owner, kind)
  {
    if owner :| !NoWiderAt(resolved, shaped, owner, kind) {
      assert owner in ReadableOwners(shaped, kind) || owner in WritableOwners(shaped, kind);
    }
    if owner: OwnerId :| owner in ReadableOwners(shaped, kind) &&
                         (!resolved.MayRead(owner, kind) || (shaped.MayManage(owner) && !resolved.MayManage(owner))) {
      assert !NoWiderAt(resolved, shaped, owner, kind);
    }
    if owner: OwnerId :| owner in WritableOwners(shaped, kind) && !resolved.MayWrite(owner, kind) {
      assert !NoWiderAt(resolved, shaped, owner, kind);
    }
  }

  /** A host's context is accepted exactly when it keeps the identity and is no wider anywhere. */
  lemma AcceptedExactlyWhenNarrower(resolved: Context, shaped: Context, tokenExpiresAt: nat)
    ensures NarrowedByHost(resolved, shaped, tokenExpiresAt).Ok? <==>
            && SameIdentity(resolved, shaped)
            && forall owner, kind :: NoWiderAt(resolved, shaped, owner, kind)
  {
    WidensAtIsNotNarrower(resolved, shaped, Fact);
    WidensAtIsNotNarrower(resolved, shaped, Abstraction);
    WidensAtIsNotNarrower(resolved, shaped, Perspective);
    WidensAtIsNotNarrower(resolved, shaped, Goal);
    if r: (OwnerId, AccessKind) :| !NoWiderAt(resolved, shaped, r.0, r.1) {
      assert WidensAt(resolved, shaped, r.1);
    }
  }

  /** An accepted context is no wider in rights, admits exactly what both admit, and ends by the token. */
  lemma AcceptedOnlyNarrows(
    resolved: Context, shaped: Context, tokenExpiresAt: nat, owner: OwnerId, kind: AccessKind, key: ScopeKey, isRead: bool)
    requires NarrowedByHost(resolved, shaped, tokenExpiresAt).Ok?
    ensures var c := NarrowedByHost(resolved, shaped, tokenExpiresAt).value;
            && SameIdentity(resolved, c) && NoWiderAt(resolved, c, owner, kind)
            && (c.Admits(key, isRead) <==> shaped.Admits(key, isRead) && resolved.Admits(key, isRead))
            && c.expiresAt.Some? && c.expiresAt.value <= tokenExpiresAt
            && (shaped.expiresAt.Some? ==> c.expiresAt.value <= shaped.expiresAt.value)
  {
    AcceptedExactlyWhenNarrower(resolved, shaped, tokenExpiresAt);
    assert NoWiderAt(resolved, shaped, owner, kind);
  }

  /** What the host must answer about a token for the server to resolve a context. */
  predicate Resolvable(binding: Binding, token: Token, answers: Answers) {
    && (binding.allowedSubjects.Some? ==> token.subject in binding.allowedSubjects.value)
    && answers.user.Some? && (answers.user.value.model.Some? ==> answers.modelUsable)
    && answers.isForwarder.Some?
    && if answers.isForwarder.value then token.owner.Some? && token.author.Some? && token.via.Some?
       else answers.roles.Some?
  }

  /** A token a binding validates is accepted exactly with these answers and, where the host shapes, a narrower context. */
  lemma AcceptedExactly(binding: Binding, token: Token, answers: Answers)
    ensures ResolvedContext(binding, token, answers).Ok? <==> Resolvable(binding, token, answers)
    ensures AuthzForToken(binding, token, answers).Ok? <==>
            && Resolvable(binding, token, answers)
            && (binding.shape.Host? ==>
                  && answers.shaped.Some?
                  && SameIdentity(ResolvedContext(binding, token, answers).value, answers.shaped.value)
                  && forall owner, kind ::
                       NoWiderAt(ResolvedContext(binding, token, answers).value, answers.shaped.value, owner, kind))
  {
    var resolved := ResolvedContext(binding, token, answers);
    if resolved.Ok? && binding.shape.Host? && answers.shaped.Some? {
      AcceptedExactlyWhenNarrower(resolved.value, answers.shaped.value, token.expiresAt);
    }
  }

  /**
    The context of a token no host shapes: a forwarder's has no roles, the claimed owner and the
    claimed author; another's has the resolved roles and writes as itself. Either ends with the
    token, is neither sealed nor confined, and admits the keys of the binding's tool scope.
   */
  lemma AcceptedContext(binding: Binding, token: Token, answers: Answers, key: ScopeKey, isRead: bool)
    requires AuthzForToken(binding, token, answers).Ok? && !binding.shape.Host?
    ensures var c := AuthzForToken(binding, token, answers).value;
            && c.expiresAt == Some(token.expiresAt) && c.path.HostBearer? && c.state == Unsealed(None)
            && c.trustedModel == answers.user.value.model && c.defaultOwner.None?
            && (c.Admits(key, isRead) <==> (binding.shape.WithToolScope? ==> binding.shape.tools.Allows(key)))
            && if answers.isForwarder == Some(true) then
                 && c.subject == Some(answers.user.value.id) && c.forwarded == token.owner
                 && c.roles.value.roles == map[]
                 && c.writer == Some(Writer(token.author.value, token.via.value))
               else
                 && c.roles == answers.roles && c.subject == Some(answers.roles.value.subject) && c.forwarded.None?
                 && c.writer == Some(Writer(answers.roles.value.subject, None))
  {
  }

  /** Manages somewhere the resolved context does not, on an owner it can read nothing of. */
  ghost predicate ManagesUnread(resolved: Context, shaped: Context, owner: OwnerId) {
    shaped.MayManage(owner) && !resolved.MayManage(owner) && !shaped.MayRead(owner, Fact)
  }

  /** An accepted context's manage rights are no wider exactly when it manages nothing new that it cannot read. */
  lemma ManageIsComparedOnReadableOwners(resolved: Context, shaped: Context, tokenExpiresAt: nat)
    requires NarrowedByHost(resolved, shaped, tokenExpiresAt).Ok?
    ensures var c := NarrowedByHost(resolved, shaped, tokenExpiresAt).value;
            (forall owner :: c.MayManage(owner) ==> resolved.MayManage(owner)) <==>
            (forall owner :: !ManagesUnread(resolved, shaped, owner))
  {
    AcceptedExactlyWhenNarrower(resolved, shaped, tokenExpiresAt);
    var c := NarrowedByHost(resolved, shaped, tokenExpiresAt).value;
    forall owner ensures c.MayManage(owner) && !resolved.MayManage(owner) <==> ManagesUnread(resolved, shaped, owner) {
      assert NoWiderAt(resolved, shaped, owner, Fact);
      assert c.MayManage(owner) == shaped.MayManage(owner);
    }
  }

  /** Such a context exists: manage without any read right is not compared. */
  lemma UnreadManagedOwnerIsNotCompared()
    ensures var resolved := ServerResolved(ScopedTo(1, 1, PERSONAL), HostBearer, Writer(1, None));
            var roles := OwnerRoles(1, RoleMap(1, [(2, Role(Closed, Closed, true))]));
            var shaped := ServerResolved(roles, HostBearer, Writer(1, None));
            && ManagesUnread(resolved, shaped, 2)
            && NarrowedByHost(resolved, shaped, 0).Ok?
            && NarrowedByHost(resolved, shaped, 0).value.MayManage(2)
  {
    var resolved := ServerResolved(ScopedTo(1, 1, PERSONAL), HostBearer, Writer(1, None));
    var rows: seq<Row> := [(2, Role(Closed, Closed, true))];
    var shaped := ServerResolved(OwnerRoles(1, RoleMap(1, rows)), HostBearer, Writer(1, None));
    assert rows[..0] == [];
    assert RoleMap(1, rows) == map[1 := PERSONAL, 2 := Role(Closed, Closed, true)];
    AcceptedExactlyWhenNarrower(resolved, shaped, 0);
  }

  /**
    Whatever the shape, the context of an accepted token is a host bearer's, ends by the token,
    has no read or write right the server did not resolve, and carries the forwarding claim and
    the configured model on; and the binding allows the token's subject.
   */
  lemma AuthenticatedContextIsBounded(binding: Binding, token: Token, answers: Answers, owner: OwnerId, kind: AccessKind)
    requires AuthzForToken(binding, token, answers).Ok?
    ensures var c := AuthzForToken(binding, token, answers).value;
            var resolved := ResolvedContext(binding, token, answers);
            && resolved.Ok? && c.path.HostBearer? && c.subject == resolved.value.subject
            && c.writer == resolved.value.writer && c.forwarded == resolved.value.forwarded
            && c.expiresAt.Some? && c.expiresAt.value <= token.expiresAt
            && NoWiderAt(resolved.value, c, owner, kind)
            && (binding.allowedSubjects.Some? ==> token.subject in binding.allowedSubjects.value)
            && answers.user.Some? && c.trustedModel == answers.user.value.model
  {
    var resolved := ResolvedContext(binding, token, answers).value;
    if binding.shape.Host? {
      AcceptedOnlyNarrows(resolved, answers.shaped.value, token.expiresAt, owner, kind, Tool(""), true);
    }
  }

  /** Contexts come from the builders alone, so a host's is one of those `Authz` reaches. */
  ghost predicate BuiltShape(answers: Answers) {
    answers.shaped.Some? ==> Inv(answers.shaped.value)
  }

  /** The context of an accepted token keeps the invariant of reachable contexts. */
  lemma AuthenticatedContextKeepsInv(binding: Binding, token: Token, answers: Answers)
    requires AuthzForToken(binding, token, answers).Ok? && BuiltShape(answers)
    ensures Inv(AuthzForToken(binding, token, answers).value)
  {
  }

  /** So narrowing an authenticated context, at any time, confines it for good. */
  lemma AuthenticatedNarrowingIsForever(
    binding: Binding, token: Token, answers: Answers, before: seq<Op>, owner: OwnerId, after: seq<Op>)
    requires AuthzForToken(binding, token, answers).Ok? && BuiltShape(answers)
    requires Narrow(Do(AuthzForToken(binding, token, answers).value, before), owner).Some?
    ensures var narrowed := Narrow(Do(AuthzForToken(binding, token, answers).value, before), owner).value;
            ConfinedForGood(narrowed, Do(narrowed, after), owner)
  {
    var c := AuthzForToken(binding, token, answers).value;
    AuthenticatedContextKeepsInv(binding, token, answers);
    DoKeepsInv(c, before);
    ConfinementIsForever(Do(c, before), owner, after);
  }

  /** A forwarder's token grants nothing by itself: no shape lets it read, write or manage any owner. */
  lemma ForwarderTokenGrantsNothing(binding: Binding, token: Token, answers: Answers, owner: OwnerId, kind: AccessKind)
    requires AuthzForToken(binding, token, answers).Ok? && BuiltShape(answers)
    requires answers.isForwarder == Some(true)
    ensures var c := AuthzForToken(binding, token, answers).value;
            && c.forwarded == token.owner && c.forwarded.Some?
            && !c.MayRead(owner, kind) && !c.MayWrite(owner, kind) && !c.MayManage(owner)
  {
    AuthenticatedContextIsBounded(binding, token, answers, owner, kind);
    AuthenticatedContextKeepsInv(binding, token, answers);
  }
}
