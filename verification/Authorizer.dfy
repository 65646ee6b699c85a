/**
 The in-memory authorizer of pkg/auth/production_authorizer.go: first-match policies
 for the subject and then for its roles, with a cache of decisions.  Methods are
 atomic and the cache belongs to the authorizer.  Whether an identifier is that of an
 agent (uuid.Parse) is a parameter.
 */
module Authorizer {
  import opened Common

  datatype Policy = Policy(subject: string, resource: string, action: string, effect: string, tenant: string)

  datatype Request = Request(subject: string, resource: string, action: string, tenant: string)

  type Bindings = map<string, seq<string>>

  // ---------------------------------------------------------------- evaluation

  /** A policy applies to a request made as `who`, the subject itself or one of its roles. */
  predicate Matches(p: Policy, who: string, req: Request) {
    && (p.subject == "*" || p.subject == who)
    && (p.resource == "*" || p.resource == req.resource)
    && (p.action == "*" || p.action == req.action)
    && (p.tenant == "" || p.tenant == req.tenant)
  }

  function FirstMatch(ps: seq<Policy>, who: string, req: Request): Option<Policy> {
    if ps == [] then None
    else
      var init, last := FirstMatch(ps[..|ps| - 1], who, req), ps[|ps| - 1];
      if init.Some? then init else if Matches(last, who, req) then Some(last) else None
  }

  /** The policy that decides for a list of identities, tried in order. */
  function Deciding(ps: seq<Policy>, ids: seq<string>, req: Request): Option<Policy> {
    if ids == [] then None
    else
      var init := Deciding(ps, ids[..|ids| - 1], req);
      if init.Some? then init else FirstMatch(ps, ids[|ids| - 1], req)
  }

  predicate Grants(d: Option<Policy>) {
    d.Some? && d.value.effect != "deny"
  }

  /** An agent without any binding has the role "user"; an empty binding is a binding. */
  function Roles(b: Bindings, isAgent: string -> bool, subject: string): seq<string> {
    if subject in b then b[subject] else if isAgent(subject) then ["user"] else []
  }

  function Identities(b: Bindings, isAgent: string -> bool, subject: string): seq<string> {
    [subject] + Roles(b, isAgent, subject)
  }

  /** The decision without a cache. */
  predicate Enforce(ps: seq<Policy>, b: Bindings, isAgent: string -> bool, req: Request) {
    Grants(Deciding(ps, Identities(b, isAgent, req.subject), req))
  }

  /** Identity `i` and policy `k` are the first pair that matches, identities before policies. */
  ghost predicate IsFirstPair(ps: seq<Policy>, ids: seq<string>, req: Request, i: nat, k: nat) {
    && i < |ids| && k < |ps| && Matches(ps[k], ids[i], req)
    && (forall m :: 0 <= m < k ==> !Matches(ps[m], ids[i], req))
    && forall j, m :: 0 <= j < i && 0 <= m < |ps| ==> !Matches(ps[m], ids[j], req)
  }

  lemma {:induction false} FirstMatchIs(ps: seq<Policy>, who: string, req: Request) returns (k: nat)
    ensures k <= |ps| && forall m :: 0 <= m < k ==> !Matches(ps[m], who, req)
    ensures k < |ps| ==> Matches(ps[k], who, req)
    ensures FirstMatch(ps, who, req) == if k < |ps| then Some(ps[k]) else None
    decreases |ps|
  {
    k := 0;
    if ps != [] {
      k := FirstMatchIs(ps[..|ps| - 1], who, req);
      if k == |ps| - 1 && !Matches(ps[k], who, req) {
        k := |ps|;
      }
    }
  }

  /** The deciding policy is that of the first matching pair, and there is none exactly when no pair matches. */
  lemma {:induction false} DecidingIsFirstPair(ps: seq<Policy>, ids: seq<string>, req: Request) returns (i: nat, k: nat)
    ensures Deciding(ps, ids, req).Some? ==> IsFirstPair(ps, ids, req, i, k) && Deciding(ps, ids, req) == Some(ps[k])
    ensures Deciding(ps, ids, req).None? <==>
              forall j, m :: 0 <= j < |ids| && 0 <= m < |ps| ==> !Matches(ps[m], ids[j], req)
    decreases |ids|
  {
    i, k := 0, 0;
    if ids != [] {
      i, k := DecidingIsFirstPair(ps, ids[..|ids| - 1], req);
      if Deciding(ps, ids[..|ids| - 1], req).None? {
        i := |ids| - 1;
        k := FirstMatchIs(ps, ids[i], req);
        assert forall j :: 0 <= j < i ==> ids[j] == ids[..i][j];
      }
    }
  }

  /** Whatever pair comes first decides. */
  lemma FirstPairDecides(ps: seq<Policy>, ids: seq<string>, req: Request, i: nat, k: nat)
    requires IsFirstPair(ps, ids, req, i, k)
    ensures Deciding(ps, ids, req) == Some(ps[k])
  {
    var j, m := DecidingIsFirstPair(ps, ids, req);
    FirstPairUnique(ps, ids, req, i, k, j, m);
  }

  /** A policy that decides applies to the request: each of its fields is a wildcard or names what is asked. */
  lemma DecidingApplies(ps: seq<Policy>, ids: seq<string>, req: Request)
    requires Deciding(ps, ids, req).Some?
    ensures var p := Deciding(ps, ids, req).value;
            && p in ps && (p.subject == "*" || p.subject in ids)
            && p.resource in {"*", req.resource} && p.action in {"*", req.action} && p.tenant in {"", req.tenant}
  {
    var i, k := DecidingIsFirstPair(ps, ids, req);
  }

  /** And whenever such a policy is there, one decides. */
  lemma ApplicableDecides(ps: seq<Policy>, ids: seq<string>, req: Request, p: Policy)
    requires p in ps && ids != [] && (p.subject == "*" || p.subject in ids)
    requires p.resource in {"*", req.resource} && p.action in {"*", req.action} && p.tenant in {"", req.tenant}
    ensures Deciding(ps, ids, req).Some?
  {
    var i, k := DecidingIsFirstPair(ps, ids, req);
    var m :| 0 <= m < |ps| && ps[m] == p;
    var j :| 0 <= j < |ids| && (p.subject == "*" || p.subject == ids[j]);
    assert Matches(ps[m], ids[j], req);
  }

  /** A request is allowed if and only if the first matching pair, the subject before its roles, has a policy that does not deny. */
  lemma AllowedIff(ps: seq<Policy>, b: Bindings, isAgent: string -> bool, req: Request)
    ensures var roles := if req.subject in b then b[req.subject] else if isAgent(req.subject) then ["user"] else [];
            (Enforce(ps, b, isAgent, req) <==>
               exists i: nat, k: nat :: IsFirstPair(ps, [req.subject] + roles, req, i, k) && ps[k].effect != "deny")
  {
    var ids := Identities(b, isAgent, req.subject);
    var i, k := DecidingIsFirstPair(ps, ids, req);
    forall j: nat, m: nat | IsFirstPair(ps, ids, req, j, m) ensures Deciding(ps, ids, req) == Some(ps[m]) {
      FirstPairDecides(ps, ids, req, j, m);
    }
  }

  lemma FirstPairUnique(ps: seq<Policy>, ids: seq<string>, req: Request, i: nat, k: nat, j: nat, m: nat)
    requires IsFirstPair(ps, ids, req, i, k) && IsFirstPair(ps, ids, req, j, m)
    ensures i == j && k == m
  {
  }

  // ---------------------------------------------------------------- changing policies

  predicate SameRule(p: Policy, q: Policy) {
    p.subject == q.subject && p.resource == q.resource && p.action == q.action
  }

  /** No two policies share subject, resource and action. */
  ghost predicate NoDuplicates(ps: seq<Policy>) {
    forall i, j :: 0 <= i < j < |ps| ==> !SameRule(ps[i], ps[j])
  }

  function Without(ps: seq<Policy>, p: Policy): seq<Policy> {
    if ps == [] then []
    else Without(ps[..|ps| - 1], p) + if SameRule(ps[|ps| - 1], p) then [] else [ps[|ps| - 1]]
  }

  predicate HasRule(ps: seq<Policy>, p: Policy) {
    exists i :: 0 <= i < |ps| && SameRule(ps[i], p)
  }

  /** What an appended policy does: it decides where it is the first to match, and changes nothing else. */
  lemma {:induction false} AppendedPolicyDecides(ps: seq<Policy>, p: Policy, ids: seq<string>, req: Request)
    ensures var before, after := Deciding(ps, ids, req), Deciding(ps + [p], ids, req);
            && (after == before || after == Some(p))
            && (before.None? ==> (after == Some(p) <==> exists i :: 0 <= i < |ids| && Matches(p, ids[i], req)))
    decreases |ids|
  {
    if ids != [] {
      AppendedPolicyDecides(ps, p, ids[..|ids| - 1], req);
      assert (ps + [p])[..|ps|] == ps;
      assert forall i :: 0 <= i < |ids| - 1 ==> ids[i] == ids[..|ids| - 1][i];
    }
  }

  /** Appending a policy that does not deny revokes nothing; appending a denial grants nothing. */
  lemma {:induction false} AppendIsMonotone(ps: seq<Policy>, p: Policy, b: Bindings, isAgent: string -> bool, req: Request)
    ensures p.effect != "deny" && Enforce(ps, b, isAgent, req) ==> Enforce(ps + [p], b, isAgent, req)
    ensures p.effect == "deny" && Enforce(ps + [p], b, isAgent, req) ==> Enforce(ps, b, isAgent, req)
  {
    AppendedPolicyDecides(ps, p, Identities(b, isAgent, req.subject), req);
  }

  lemma {:induction false} WithoutAbsent(ps: seq<Policy>, p: Policy)
    ensures |Without(ps, p)| <= |ps|
    ensures if HasRule(ps, p) then |Without(ps, p)| < |ps| else Without(ps, p) == ps
    decreases |ps|
  {
    if ps != [] {
      var init, last := ps[..|ps| - 1], ps[|ps| - 1];
      WithoutAbsent(init, p);
      HasRuleSnoc(init, last, p);
      assert ps == init + [last];
    }
  }

  lemma HasRuleSnoc(ps: seq<Policy>, q: Policy, p: Policy)
    ensures HasRule(ps + [q], p) <==> HasRule(ps, p) || SameRule(q, p)
  {
    if HasRule(ps, p) {
      var i :| 0 <= i < |ps| && SameRule(ps[i], p);
      assert SameRule((ps + [q])[i], p);
    }
    if SameRule(q, p) {
      assert SameRule((ps + [q])[|ps|], p);
    }
  }

  /** Adding a policy and removing it restores the exact list. */
  lemma AddRemoveRestores(ps: seq<Policy>, p: Policy, q: Policy)
    requires !HasRule(ps, p) && SameRule(p, q)
    ensures Without(ps + [p], q) == ps
  {
    assert (ps + [p])[..|ps|] == ps;
    assert forall i :: 0 <= i < |ps| ==> (SameRule(ps[i], p) <==> SameRule(ps[i], q));
    WithoutAbsent(ps, q);
  }

  /** What is kept is kept in order, and is what does not share the rule. */
  lemma {:induction false} WithoutKeeps(ps: seq<Policy>, p: Policy, x: Policy)
    requires NoDuplicates(ps)
    ensures NoDuplicates(Without(ps, p))
    ensures x in Without(ps, p) <==> x in ps && !SameRule(x, p)
    decreases |ps|
  {
    if ps != [] {
      var init, last := ps[..|ps| - 1], ps[|ps| - 1];
      assert ps == init + [last];
      WithoutKeeps(init, p, x);
      var rest := Without(init, p);
      forall i | 0 <= i < |rest| ensures !SameRule(rest[i], last) {
        WithoutKeeps(init, p, rest[i]);
        assert rest[i] in init;
      }
    }
  }

  /** Removal takes the policy out of its place and moves nothing else. */
  lemma {:induction false} WithoutTakesOut(a: seq<Policy>, p: Policy, b: seq<Policy>, q: Policy)
    requires !HasRule(a, q) && !HasRule(b, q) && SameRule(p, q)
    ensures Without(a + [p] + b, q) == a + b
    decreases |b|
  {
    var all := a + [p] + b;
    if b == [] {
      assert all == a + [p] && all[..|a|] == a && a + b == a;
      WithoutAbsent(a, q);
    } else {
      var init, last := b[..|b| - 1], b[|b| - 1];
      assert b == init + [last] && all[..|all| - 1] == a + [p] + init;
      HasRuleSnoc(init, last, q);
      WithoutTakesOut(a, p, init, q);
      assert a + b == a + init + [last];
    }
  }

  // ---------------------------------------------------------------- changing roles

  function WithRole(b: Bindings, user: string, role: string): Bindings {
    b[user := (if user in b then b[user] else []) + [role]]
  }

  function DropRole(roles: seq<string>, role: string): seq<string> {
    if roles == [] then []
    else DropRole(roles[..|roles| - 1], role) + if roles[|roles| - 1] == role then [] else [roles[|roles| - 1]]
  }

  function WithoutRole(b: Bindings, user: string, role: string): Bindings {
    if user in b then b[user := DropRole(b[user], role)] else b
  }

  lemma {:induction false} DropAbsent(roles: seq<string>, role: string)
    ensures role !in roles ==> DropRole(roles, role) == roles
    ensures role !in DropRole(roles, role)
    decreases |roles|
  {
    if roles != [] {
      DropAbsent(roles[..|roles| - 1], role);
      assert roles == roles[..|roles| - 1] + [roles[|roles| - 1]];
    }
  }

  /** Taking a role away leaves the others in their order. */
  lemma {:induction false} DropTakesOut(a: seq<string>, role: string, b: seq<string>)
    requires role !in a && role !in b
    ensures DropRole(a + [role] + b, role) == a + b
    decreases |b|
  {
    var all := a + [role] + b;
    if b == [] {
      assert all == a + [role] && all[..|a|] == a && a + b == a;
      DropAbsent(a, role);
    } else {
      var init, last := b[..|b| - 1], b[|b| - 1];
      assert b == init + [last] && all[..|all| - 1] == a + [role] + init;
      DropTakesOut(a, role, init);
      assert a + b == a + init + [last];
    }
  }

  /** Assigning a role and taking it away restores the bindings if and only if the user had a binding before. */
  lemma RoleRoundTripIff(b: Bindings, user: string, role: string)
    requires user in b ==> role !in b[user]
    ensures WithoutRole(WithRole(b, user, role), user, role) == b <==> user in b
    ensures user !in b ==> WithoutRole(WithRole(b, user, role), user, role) == b[user := []]
  {
    var roles := if user in b then b[user] else [];
    assert (roles + [role])[..|roles|] == roles;
    DropAbsent(roles, role);
    assert DropRole(roles + [role], role) == roles;
    var after := WithoutRole(WithRole(b, user, role), user, role);
    assert after == b[user := roles];
    assert user in b ==> b[user := roles] == b;
    assert user in after;
  }

  /** For an agent without binding that round trip loses the default role. */
  lemma RoundTripLosesDefaultRole(b: Bindings, isAgent: string -> bool, user: string, role: string)
    requires user !in b && isAgent(user)
    ensures Roles(b, isAgent, user) == ["user"]
    ensures Roles(WithoutRole(WithRole(b, user, role), user, role), isAgent, user) == []
  {
    RoleRoundTripIff(b, user, role);
  }

  lemma {:induction false} MoreIdentities(ps: seq<Policy>, ids: seq<string>, id: string, req: Request)
    ensures Deciding(ps, ids, req).Some? ==> Deciding(ps, ids + [id], req) == Deciding(ps, ids, req)
  {
    assert (ids + [id])[..|ids|] == ids;
  }

  /** Whatever decides for the first of two equal identities decides for both. */
  lemma RepeatedIdentity(ps: seq<Policy>, id: string, req: Request)
    ensures Deciding(ps, [id, id], req) == Deciding(ps, [id], req)
  {
    assert [id, id][..1] == [id] && [id][..0] == [];
  }

  /** The users whose first new role takes away what the default role "user" granted. */
  predicate LosesDefault(b: Bindings, isAgent: string -> bool, user: string, role: string) {
    user !in b && isAgent(user) && role != "user" && user != "user"
  }

  lemma AddRoleKeeps(ps: seq<Policy>, b: Bindings, isAgent: string -> bool, user: string, role: string, req: Request)
    requires !LosesDefault(b, isAgent, user, role) && Enforce(ps, b, isAgent, req)
    ensures Enforce(ps, WithRole(b, user, role), isAgent, req)
  {
    if req.subject == user {
      var ids, ids' := Identities(b, isAgent, user), Identities(WithRole(b, user, role), isAgent, user);
      if user in b || !isAgent(user) {
        MoreIdentities(ps, ids, role, req);
        assert ids' == ids + [role];
      } else if role == "user" {
        assert ids' == ids;
      } else {
        assert ids == ["user", "user"] && ids' == ["user"] + [role];
        RepeatedIdentity(ps, "user", req);
        MoreIdentities(ps, ["user"], role, req);
      }
    }
  }

  /** The permission that is lost: one granted to the role "user". */
  lemma AddRoleLoses(b: Bindings, isAgent: string -> bool, user: string, role: string)
    requires LosesDefault(b, isAgent, user, role)
    ensures var ps, req := [Policy("user", "workspace", "create", "allow", "")], Request(user, "workspace", "create", "");
            Enforce(ps, b, isAgent, req) && !Enforce(ps, WithRole(b, user, role), isAgent, req)
  {
    var ps, req := [Policy("user", "workspace", "create", "allow", "")], Request(user, "workspace", "create", "");
    var before, after := Identities(b, isAgent, user), Identities(WithRole(b, user, role), isAgent, user);
    assert before == [user, "user"] && after == [user, role];
    assert IsFirstPair(ps, before, req, 1, 0);
    FirstPairDecides(ps, before, req, 1, 0);
    var j, m := DecidingIsFirstPair(ps, after, req);
  }

  /**
   Assigning a role revokes nothing, for any policies and any request, if and only if the
   user has a binding already, is no agent, or is given or named after the default role.
   */
  lemma AddRoleRevokesNothingIff(b: Bindings, isAgent: string -> bool, user: string, role: string)
    ensures (forall ps, req :: Enforce(ps, b, isAgent, req) ==> Enforce(ps, WithRole(b, user, role), isAgent, req))
       <==> user in b || !isAgent(user) || role == "user" || user == "user"
  {
    if LosesDefault(b, isAgent, user, role) {
      AddRoleLoses(b, isAgent, user, role);
    } else {
      forall ps, req | Enforce(ps, b, isAgent, req) ensures Enforce(ps, WithRole(b, user, role), isAgent, req) {
        AddRoleKeeps(ps, b, isAgent, user, role, req);
      }
    }
  }

  // ---------------------------------------------------------------- the cache key

  function Join(a: string, b: string): string {
    a + ":" + b
  }

  function JoinAll(parts: seq<string>): string
    requires parts != []
  {
    if |parts| == 1 then parts[0] else Join(parts[0], JoinAll(parts[1..]))
  }

  function CacheKey(r: Request): string {
    JoinAll(["auth", r.subject, r.resource, r.action, r.tenant])
  }

  lemma KeyIs(r: Request)
    ensures CacheKey(r) == Join("auth", Join(r.subject, Join(r.resource, Join(r.action, r.tenant))))
  {
    assert JoinAll([r.tenant]) == r.tenant;
    JoinMore(r.action, [r.tenant]);
    JoinMore(r.resource, [r.action, r.tenant]);
    JoinMore(r.subject, [r.resource, r.action, r.tenant]);
    JoinMore("auth", [r.subject, r.resource, r.action, r.tenant]);
  }

  lemma JoinMore(first: string, rest: seq<string>)
    requires rest != []
    ensures JoinAll([first] + rest) == Join(first, JoinAll(rest))
  {
    assert ([first] + rest)[1..] == rest;
  }

  function Field(r: Request, i: nat): string
    requires i < 4
  {
    if i == 0 then r.subject else if i == 1 then r.resource else if i == 2 then r.action else r.tenant
  }

  /** Only fields at the given positions may hold a colon. */
  ghost predicate Confined(r: Request, open: set<nat>) {
    forall i :: 0 <= i < 4 && i !in open ==> ':' !in Field(r, i)
  }

  lemma FirstColon(a: string, x: string)
    requires ':' !in a
    ensures Join(a, x)[|a|] == ':' && forall i :: 0 <= i < |a| ==> Join(a, x)[i] != ':'
    ensures Join(a, x)[..|a|] == a && Join(a, x)[|a| + 1..] == x
  {
  }

  lemma LastColon(x: string, a: string)
    requires ':' !in a
    ensures Join(x, a)[|x|] == ':' && forall i :: |x| < i < |Join(x, a)| ==> Join(x, a)[i] != ':'
    ensures Join(x, a)[..|x|] == x && Join(x, a)[|x| + 1..] == a
  {
  }

  lemma SplitLeft(a: string, x: string, b: string, y: string)
    requires Join(a, x) == Join(b, y) && ':' !in a && ':' !in b
    ensures a == b && x == y
  {
    FirstColon(a, x);
    FirstColon(b, y);
    assert |a| == |b|;
  }

  lemma SplitRight(x: string, a: string, y: string, b: string)
    requires Join(x, a) == Join(y, b) && ':' !in a && ':' !in b
    ensures a == b && x == y
  {
    LastColon(x, a);
    LastColon(y, b);
    assert |x| == |y|;
  }

  lemma JoinAssoc(a: string, b: string, c: string)
    ensures Join(a, Join(b, c)) == Join(Join(a, b), c)
  {
  }

  /** From the right, the fields after the open one can be read off. */
  lemma ReadRight(r: Request, q: Request, p: nat)
    requires p < 4 && Confined(r, {p}) && Confined(q, {p})
    requires Join(r.subject, Join(r.resource, Join(r.action, r.tenant)))
          == Join(q.subject, Join(q.resource, Join(q.action, q.tenant)))
    ensures p <= 2 ==> r.tenant == q.tenant && Join(r.subject, Join(r.resource, r.action)) == Join(q.subject, Join(q.resource, q.action))
    ensures p <= 1 ==> r.action == q.action && Join(r.subject, r.resource) == Join(q.subject, q.resource)
    ensures p == 0 ==> r.resource == q.resource && r.subject == q.subject
  {
    forall s: Request ensures Join(s.subject, Join(s.resource, Join(s.action, s.tenant)))
                           == Join(Join(s.subject, Join(s.resource, s.action)), s.tenant) {
      JoinAssoc(s.resource, s.action, s.tenant);
      JoinAssoc(s.subject, Join(s.resource, s.action), s.tenant);
    }
    if p <= 2 {
      assert ':' !in Field(r, 3) && ':' !in Field(q, 3);
      SplitRight(Join(r.subject, Join(r.resource, r.action)), r.tenant, Join(q.subject, Join(q.resource, q.action)), q.tenant);
    }
    if p <= 1 {
      assert ':' !in Field(r, 2) && ':' !in Field(q, 2);
      JoinAssoc(r.subject, r.resource, r.action);
      JoinAssoc(q.subject, q.resource, q.action);
      SplitRight(Join(r.subject, r.resource), r.action, Join(q.subject, q.resource), q.action);
    }
    if p == 0 {
      assert ':' !in Field(r, 1) && ':' !in Field(q, 1);
      SplitRight(r.subject, r.resource, q.subject, q.resource);
    }
  }

  /** With colons in one position at most, the key determines the request. */
  lemma KeyDeterminesRequest(r: Request, q: Request, p: nat)
    requires p < 4 && Confined(r, {p}) && Confined(q, {p}) && CacheKey(r) == CacheKey(q)
    ensures r == q
  {
    KeyIs(r);
    KeyIs(q);
    SplitLeft("auth", Join(r.subject, Join(r.resource, Join(r.action, r.tenant))),
              "auth", Join(q.subject, Join(q.resource, Join(q.action, q.tenant))));
    ReadRight(r, q, p);
    if p >= 1 {
      assert ':' !in Field(r, 0) && ':' !in Field(q, 0);
      SplitLeft(r.subject, Join(r.resource, Join(r.action, r.tenant)), q.subject, Join(q.resource, Join(q.action, q.tenant)));
      if p == 1 {
        SplitLeft(r.subject, r.resource, q.subject, q.resource);
      } else {
        assert ':' !in Field(r, 1) && ':' !in Field(q, 1);
        SplitLeft(r.resource, Join(r.action, r.tenant), q.resource, Join(q.action, q.tenant));
        if p == 2 {
          SplitLeft(r.subject, Join(r.resource, r.action), q.subject, Join(q.resource, q.action));
          SplitLeft(r.resource, r.action, q.resource, q.action);
        } else {
          assert ':' !in Field(r, 2) && ':' !in Field(q, 2);
          SplitLeft(r.action, r.tenant, q.action, q.tenant);
        }
      }
    }
  }

  /** The request whose fields are all "m", but for a "m:m" at one position. */
  function Marker(i: nat): Request {
    Request(if i == 0 then "m:m" else "m", if i == 1 then "m:m" else "m",
            if i == 2 then "m:m" else "m", if i == 3 then "m:m" else "m")
  }

  lemma MarkerKey(i: nat)
    requires i < 4
    ensures CacheKey(Marker(i)) == Join("auth", "m:m:m:m:m")
  {
    KeyIs(Marker(i));
    JoinMs();
  }

  lemma JoinMs()
    ensures Join("m", "m") == "m:m" && Join("m", "m:m") == "m:m:m" && Join("m:m", "m") == "m:m:m"
    ensures Join("m", "m:m:m") == "m:m:m:m" && Join("m:m", "m:m") == "m:m:m:m"
    ensures Join("m", "m:m:m:m") == "m:m:m:m:m" && Join("m:m", "m:m:m") == "m:m:m:m:m"
  {
  }

  /** With colons in two positions, two requests share a key. */
  lemma MarkersCollide(i: nat, j: nat)
    requires i < j < 4
    ensures CacheKey(Marker(i)) == CacheKey(Marker(j)) && Marker(i) != Marker(j)
    ensures Confined(Marker(i), {i, j}) && Confined(Marker(j), {i, j})
  {
    MarkerKey(i);
    MarkerKey(j);
    assert |Field(Marker(i), i)| == 3 && |Field(Marker(j), i)| == 1;
  }

  /** Keys tell requests apart if and only if at most one position may hold a colon. */
  lemma KeyInjectiveIff(open: set<nat>)
    requires forall i :: i in open ==> i < 4
    ensures (forall r, q :: Confined(r, open) && Confined(q, open) && CacheKey(r) == CacheKey(q) ==> r == q)
       <==> |open| <= 1
  {
    if |open| <= 1 {
      var p: nat := if open == {} then 0 else AnElement(open);
      assert open <= {p} by {
        if open != {} { OnlyElement(open, p); }
      }
      forall r, q | Confined(r, open) && Confined(q, open) && CacheKey(r) == CacheKey(q) ensures r == q {
        KeyDeterminesRequest(r, q, p);
      }
    } else {
      var i, j := TwoElements(open);
      MarkersCollide(i, j);
      assert Confined(Marker(i), open) && Confined(Marker(j), open);
    }
  }

  ghost function AnElement(s: set<nat>): (x: nat)
    requires s != {}
    ensures x in s
  {
    var x :| x in s; x
  }

  lemma OnlyElement(s: set<nat>, p: nat)
    requires |s| <= 1 && p in s
    ensures s == {p}
  {
    assert |s - {p}| == |s| - 1;
  }

  lemma TwoElements(s: set<nat>) returns (i: nat, j: nat)
    requires |s| > 1
    ensures i in s && j in s && i < j
  {
    var x := AnElement(s);
    assert |s - {x}| == |s| - 1;
    var y := AnElement(s - {x});
    i, j := if x < y then x else y, if x < y then y else x;
  }

  /** Two such requests can deserve different decisions, and then the cached answer of one is wrong for the other. */
  lemma CollisionCanMisjudge(isAgent: string -> bool)
    requires !isAgent("a") && !isAgent("a:b")
    ensures var ps := [Policy("a:b", "c", "d", "allow", "")];
            var r, q := Request("a:b", "c", "d", ""), Request("a", "b:c", "d", "");
            && CacheKey(r) == CacheKey(q)
            && Enforce(ps, map[], isAgent, r) && !Enforce(ps, map[], isAgent, q)
  {
    var ps := [Policy("a:b", "c", "d", "allow", "")];
    var r, q := Request("a:b", "c", "d", ""), Request("a", "b:c", "d", "");
    var end := Join("d", "");
    KeyIs(r);
    KeyIs(q);
    assert "a:b" == Join("a", "b") && "b:c" == Join("b", "c");
    JoinAssoc("a", "b", Join("c", end));
    JoinAssoc("b", "c", end);
    assert Identities(map[], isAgent, "a:b") == ["a:b"] && Identities(map[], isAgent, "a") == ["a"];
    var i, k := DecidingIsFirstPair(ps, ["a:b"], r);
    assert Matches(ps[0], ["a:b"][0], r);
    var j, m := DecidingIsFirstPair(ps, ["a"], q);
  }

  // ---------------------------------------------------------------- the authorizer

  datatype Decision = Invalid | Allowed | Denied

  datatype Change = Done | Rejected

  predicate ValidRequest(r: Request) {
    r.subject != "" && r.resource != "" && r.action != ""
  }

  predicate ValidPolicy(p: Policy) {
    && p.subject != "" && p.resource != "" && p.action != ""
    && (p.effect == "" || p.effect == "allow" || p.effect == "deny")
  }

  const AdminPolicies: seq<Policy> := [Policy("admin", "*", "*", "allow", "")]

  const UserPolicies: seq<Policy> := [
    Policy("user", "workspace", "read", "allow", ""),
    Policy("user", "workspace", "create", "allow", ""),
    Policy("user", "document", "read", "allow", ""),
    Policy("user", "document", "create", "allow", ""),
    Policy("user", "task", "read", "allow", ""),
    Policy("user", "task", "create", "allow", "")
  ]

  const WorkflowPolicies: seq<Policy> := [
    Policy("user", "workflow", "read", "allow", ""),
    Policy("user", "workflow", "create", "allow", ""),
    Policy("user", "workflow", "update", "allow", ""),
    Policy("user", "workflow", "delete", "allow", "")
  ]

  const ViewerPolicies: seq<Policy> := [
    Policy("viewer", "workspace", "read", "allow", ""),
    Policy("viewer", "document", "read", "allow", ""),
    Policy("viewer", "task", "read", "allow", ""),
    Policy("viewer", "workflow", "read", "allow", "")
  ]

  const DefaultPolicies: seq<Policy> := AdminPolicies + UserPolicies + WorkflowPolicies + ViewerPolicies

  const DefaultBindings: Bindings := map[
    "system" := ["admin"], "agent-1" := ["user"], "agent-2" := ["user"], "backend-dev" := ["user"],
    "frontend-dev" := ["user"], "devops" := ["user"], "ml-engineer" := ["user"]
  ]

  lemma UserPoliciesDistinct()
    ensures NoDuplicates(UserPolicies) && forall i :: 0 <= i < |UserPolicies| ==> UserPolicies[i].resource != "workflow"
  {
  }

  lemma WorkflowPoliciesDistinct()
    ensures NoDuplicates(WorkflowPolicies)
  {
  }

  lemma ViewerPoliciesDistinct()
    ensures NoDuplicates(ViewerPolicies)
  {
  }

  lemma AllUserPoliciesDistinct()
    ensures NoDuplicates(UserPolicies + WorkflowPolicies)
  {
    UserPoliciesDistinct();
    WorkflowPoliciesDistinct();
    assert forall i :: 0 <= i < |WorkflowPolicies| ==> WorkflowPolicies[i].resource == "workflow";
    DistinctConcat(UserPolicies, WorkflowPolicies);
  }

  ghost predicate AllFor(ps: seq<Policy>, subject: string) {
    forall i :: 0 <= i < |ps| ==> ps[i].subject == subject
  }

  lemma DefaultsDistinct()
    ensures NoDuplicates(DefaultPolicies)
  {
    AllUserPoliciesDistinct();
    ViewerPoliciesDistinct();
    var user := UserPolicies + WorkflowPolicies;
    assert AllFor(UserPolicies, "user") && AllFor(WorkflowPolicies, "user") && AllFor(ViewerPolicies, "viewer");
    SubjectsDistinct(user, "user", ViewerPolicies, "viewer");
    assert |AdminPolicies| == 1 && AdminPolicies[0].subject == "admin";
    DistinctConcat(AdminPolicies, user + ViewerPolicies);
    assert AdminPolicies + (user + ViewerPolicies) == DefaultPolicies;
  }

  lemma SubjectsDistinct(a: seq<Policy>, s: string, b: seq<Policy>, t: string)
    requires NoDuplicates(a) && NoDuplicates(b) && AllFor(a, s) && AllFor(b, t) && s != t
    ensures NoDuplicates(a + b)
    ensures forall i :: 0 <= i < |a + b| ==> (a + b)[i].subject == s || (a + b)[i].subject == t
  {
    DistinctConcat(a, b);
  }

  lemma DistinctConcat(a: seq<Policy>, b: seq<Policy>)
    requires NoDuplicates(a) && NoDuplicates(b)
    requires forall i, j :: 0 <= i < |a| && 0 <= j < |b| ==> !SameRule(a[i], b[j])
    ensures NoDuplicates(a + b)
  {
  }

  class ProductionAuthorizer {
    var policies: seq<Policy>
    var roleBindings: Bindings
    var roles: set<string>
    var cache: map<string, bool>
    const cacheEnabled: bool
    const isAgent: string -> bool
    ghost var asked: map<string, Request> // the request each cached decision was made for

    ghost predicate CacheFaithful()
      reads this
    {
      && (forall key :: key in asked <==> key in cache)
      && forall key :: key in cache ==>
           CacheKey(asked[key]) == key && cache[key] == Enforce(policies, roleBindings, isAgent, asked[key])
    }

    ghost predicate Valid()
      reads this
    {
      NoDuplicates(policies) && CacheFaithful() && (!cacheEnabled ==> cache == map[])
    }

    constructor (cacheEnabled: bool, isAgent: string -> bool)
      ensures Valid() && cache == map[] && policies == DefaultPolicies && roleBindings == DefaultBindings
      ensures this.cacheEnabled == cacheEnabled && this.isAgent == isAgent && roles == {"admin", "user", "viewer"}
    {
      policies, roleBindings, roles := DefaultPolicies, DefaultBindings, {"admin", "user", "viewer"};
      this.cacheEnabled, this.isAgent := cacheEnabled, isAgent;
      cache, asked := map[], map[];
      new;
      DefaultsDistinct();
    }

    /** One pass over the policies for one identity. */
    method Scan(who: string, req: Request) returns (d: Option<Policy>)
      ensures d == FirstMatch(policies, who, req)
    {
      d := None;
      for i := 0 to |policies|
        invariant FirstMatch(policies[..i], who, req) == None
      {
        assert policies[..i + 1][..i] == policies[..i];
        if Matches(policies[i], who, req) {
          d := Some(policies[i]);
          MatchStays(policies, i + 1, who, req);
          return;
        }
      }
      assert policies[..|policies|] == policies;
    }

    /** The loop over the roles. */
    method ScanRoles(mine: seq<string>, req: Request) returns (d: Option<Policy>)
      ensures d == Deciding(policies, mine, req)
    {
      d := None;
      for i := 0 to |mine|
        invariant d == None && Deciding(policies, mine[..i], req) == None
      {
        assert mine[..i + 1][..i] == mine[..i];
        d := Scan(mine[i], req);
        if d.Some? {
          DecisionStays(policies, mine, i + 1, req);
          return;
        }
      }
      assert mine[..|mine|] == mine;
    }

    /** enforceWithRetry: the subject first, then its roles. */
    method EnforceWithRetry(req: Request) returns (allowed: bool)
      ensures allowed == Enforce(policies, roleBindings, isAgent, req)
    {
      SubjectFirst(policies, req.subject, Roles(roleBindings, isAgent, req.subject), req);
      var direct := Scan(req.subject, req);
      if direct.Some? {
        return direct.value.effect != "deny";
      }
      var mine := [];
      if req.subject in roleBindings {
        mine := roleBindings[req.subject];
      } else if isAgent(req.subject) {
        mine := ["user"];
      }
      var d := ScanRoles(mine, req);
      return d.Some? && d.value.effect != "deny";
    }

    /** The cache lookup, and behind it the evaluation. */
    method Judge(req: Request) returns (allowed: bool)
      requires Valid()
      modifies this`cache, this`asked
      ensures Valid()
      ensures allowed == Enforce(policies, roleBindings, isAgent, Judged(old(asked), req))
      ensures cacheEnabled ==> CacheKey(req) in cache && cache[CacheKey(req)] == allowed
      ensures asked == old(asked) || asked == old(asked)[CacheKey(req) := req]
    {
      var key := CacheKey(req);
      if cacheEnabled && key in cache {
        return cache[key];
      }
      allowed := EnforceWithRetry(req);
      if cacheEnabled {
        cache, asked := cache[key := allowed], asked[key := req];
      }
    }

    /**
     The decision is that of the current policies and bindings, for the request or, on a
     hit, for the request the cached decision was made for; which is the same request
     when in all of them colons are confined to one position `p`.
     */
    method AuthorizeRequest(req: Request, ghost p: nat) returns (r: Decision)
      requires Valid() && p < 4
      modifies this`cache, this`asked
      ensures Valid()
      ensures r == Invalid <==> req.subject == "" || req.resource == "" || req.action == ""
      ensures cacheEnabled && r != Invalid ==> CacheKey(req) in cache && cache[CacheKey(req)] == (r == Allowed)
      ensures r != Invalid ==> (r == Allowed <==> Enforce(policies, roleBindings, isAgent, Judged(old(asked), req)))
      ensures r != Invalid && AllConfined(old(asked), p) && Confined(req, {p}) ==>
                (r == Allowed <==> Enforce(policies, roleBindings, isAgent, req)) && AllConfined(asked, p)
      ensures asked == old(asked) || asked == old(asked)[CacheKey(req) := req]
    {
      if !ValidRequest(req) {
        return Invalid;
      }
      if AllConfined(asked, p) && Confined(req, {p}) {
        ConfinedHit(asked, req, p);
      }
      var allowed := Judge(req);
      return if allowed then Allowed else Denied;
    }

    /** Cached decisions may expire, and the policy watcher may flush them all. */
    method Expire(keys: set<string>)
      requires Valid()
      modifies this`cache, this`asked
      ensures Valid() && cache == old(cache) - keys && asked == old(asked) - keys
    {
      cache, asked := cache - keys, asked - keys;
    }

    method Flush()
      modifies this`cache, this`asked
      ensures cache == (if cacheEnabled then map[] else old(cache)) && asked == (if cacheEnabled then map[] else old(asked))
    {
      if cacheEnabled {
        cache, asked := map[], map[];
      }
    }

    /** Appends a valid policy unless its rule is taken. */
    method AddPolicy(p: Policy) returns (r: Change)
      requires Valid()
      modifies this`policies, this`cache, this`asked
      ensures Valid()
      ensures r == Done <==>
                && p.subject != "" && p.resource != "" && p.action != "" && p.effect in {"", "allow", "deny"}
                && forall q :: q in old(policies) ==> !SameRule(q, p)
      ensures policies == if r == Done then old(policies) + [p] else old(policies)
    {
      if !ValidPolicy(p) {
        return Rejected;
      }
      for i := 0 to |policies|
        invariant forall j :: 0 <= j < i ==> !SameRule(policies[j], p)
      {
        if SameRule(policies[i], p) {
          return Rejected;
        }
      }
      policies := policies + [p];
      Flush();
      return Done;
    }

    /** Removes the policy with this rule, keeping the others in order. */
    method RemovePolicy(p: Policy) returns (r: Change)
      requires Valid()
      modifies this`policies, this`cache, this`asked
      ensures Valid()
      ensures r == Done <==>
                && p.subject != "" && p.resource != "" && p.action != "" && p.effect in {"", "allow", "deny"}
                && exists q :: q in old(policies) && SameRule(q, p)
      ensures policies == if r == Done then Without(old(policies), p) else old(policies)
    {
      if !ValidPolicy(p) {
        return Rejected;
      }
      var found, newPolicies := Filter(policies, p);
      WithoutAbsent(policies, p);
      WithoutKeeps(policies, p, p);
      policies := newPolicies;
      if !found {
        return Rejected;
      }
      Flush();
      return Done;
    }

    /** The removal loop. */
    method Filter(ps: seq<Policy>, p: Policy) returns (found: bool, kept: seq<Policy>)
      ensures kept == Without(ps, p) && found == HasRule(ps, p)
    {
      found, kept := false, [];
      for i := 0 to |ps|
        invariant kept == Without(ps[..i], p) && found == HasRule(ps[..i], p)
      {
        assert ps[..i + 1][..i] == ps[..i] && ps[..i + 1] == ps[..i] + [ps[i]];
        HasRuleSnoc(ps[..i], ps[i], p);
        if SameRule(ps[i], p) {
          found := true;
        } else {
          kept := kept + [ps[i]];
        }
      }
      assert ps[..|ps|] == ps;
    }

    /** Assigns an existing role the user does not have yet. */
    method AddRole(user: string, role: string) returns (r: Change)
      requires Valid()
      modifies this`roleBindings, this`cache, this`asked
      ensures Valid()
      ensures r == Done <==>
                user != "" && role != "" && role in roles && !(user in old(roleBindings) && role in old(roleBindings)[user])
      ensures roleBindings == if r == Done then WithRole(old(roleBindings), user, role) else old(roleBindings)
    {
      if user == "" || role == "" || role !in roles {
        return Rejected;
      }
      if user in roleBindings {
        var held := roleBindings[user];
        for i := 0 to |held|
          invariant role !in held[..i]
        {
          if held[i] == role {
            return Rejected;
          }
        }
        assert held[..|held|] == held;
      }
      roleBindings := WithRole(roleBindings, user, role);
      Flush();
      return Done;
    }

    /** Takes a role away; the user keeps a binding, possibly an empty one. */
    method RemoveRole(user: string, role: string) returns (r: Change)
      requires Valid()
      modifies this`roleBindings, this`cache, this`asked
      ensures Valid()
      ensures r == Done <==>
                user != "" && role != "" && user in old(roleBindings) && role in old(roleBindings)[user]
      ensures roleBindings == if r == Done then WithoutRole(old(roleBindings), user, role) else old(roleBindings)
    {
      if user == "" || role == "" {
        return Rejected;
      }
      var found := false;
      if user in roleBindings {
        var held, newRoles := roleBindings[user], [];
        for i := 0 to |held|
          invariant newRoles == DropRole(held[..i], role) && found == (role in held[..i])
        {
          assert held[..i + 1][..i] == held[..i];
          if held[i] == role {
            found := true;
          } else {
            newRoles := newRoles + [held[i]];
          }
        }
        assert held[..|held|] == held;
        DropAbsent(held, role);
        roleBindings := roleBindings[user := newRoles];
      }
      if !found {
        assert roleBindings == old(roleBindings);
        return Rejected;
      }
      Flush();
      return Done;
    }
  }

  /** The request a decision is made for: the one its key is cached for, or else the request itself. */
  ghost function Judged(asked: map<string, Request>, req: Request): Request {
    if CacheKey(req) in asked then asked[CacheKey(req)] else req
  }

  /** Every cached decision is for a request with colons in one position at most. */
  ghost predicate AllConfined(asked: map<string, Request>, p: nat) {
    forall key :: key in asked ==> Confined(asked[key], {p})
  }

  /** A cached decision for the key of a request is for that request, and caching it keeps colons confined. */
  lemma ConfinedHit(asked: map<string, Request>, req: Request, p: nat)
    requires p < 4 && AllConfined(asked, p) && Confined(req, {p})
    ensures CacheKey(req) in asked && CacheKey(asked[CacheKey(req)]) == CacheKey(req) ==> Judged(asked, req) == req
    ensures AllConfined(asked[CacheKey(req) := req], p)
  {
    var key := CacheKey(req);
    if key in asked && CacheKey(asked[key]) == key {
      KeyDeterminesRequest(asked[key], req, p);
    }
  }

  lemma {:induction false} MatchStays(ps: seq<Policy>, i: nat, who: string, req: Request)
    requires i <= |ps| && FirstMatch(ps[..i], who, req).Some?
    ensures FirstMatch(ps, who, req) == FirstMatch(ps[..i], who, req)
    decreases |ps|
  {
    if i < |ps| {
      assert ps[..|ps| - 1][..i] == ps[..i];
      MatchStays(ps[..|ps| - 1], i, who, req);
    } else {
      assert ps[..i] == ps;
    }
  }

  lemma {:induction false} SubjectFirst(ps: seq<Policy>, subject: string, roles: seq<string>, req: Request)
    ensures Deciding(ps, [subject] + roles, req)
         == var direct := FirstMatch(ps, subject, req); if direct.Some? then direct else Deciding(ps, roles, req)
    decreases |roles|
  {
    var ids := [subject] + roles;
    if roles == [] {
      assert ids[..0] == [];
      assert Deciding(ps, ids[..0], req) == None;
    } else {
      assert ids[..|ids| - 1] == [subject] + roles[..|roles| - 1];
      SubjectFirst(ps, subject, roles[..|roles| - 1], req);
    }
  }

  lemma {:induction false} DecisionStays(ps: seq<Policy>, ids: seq<string>, i: nat, req: Request)
    requires i <= |ids| && Deciding(ps, ids[..i], req).Some?
    ensures Deciding(ps, ids, req) == Deciding(ps, ids[..i], req)
    decreases |ids|
  {
    if i < |ids| {
      assert ids[..|ids| - 1][..i] == ids[..i];
      DecisionStays(ps, ids[..|ids| - 1], i, req);
    } else {
      assert ids[..i] == ids;
    }
  }
}
