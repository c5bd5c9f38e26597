/** Member roles of a repository: the desired buckets built from the role
    lists of a manifest (`getMembersMap`), the buckets recorded in the
    privileges table (`getMembersMapByDB`) and the per-role differences the
    `add*` and `remove*` functions compute. A Go map whose values equal its
    keys is modelled by its key set. */
module Members {
  import opened Base
  import opened Database

  /** The four roles, in precedence order. */
  datatype Role = Manager | Developer | Viewer | Reporter

  /** The role names stored in the privileges table. */
  function RoleName(role: Role): string
  {
    match role
    case Manager => "manager"
    case Developer => "developer"
    case Viewer => "viewer"
    case Reporter => "reporter"
  }

  /** The role a stored name denotes, if any. */
  function RoleOf(name: string): (r: Option<Role>)
    ensures r.Some? ==> RoleName(r.value) == name
    ensures r.None? ==> forall role :: RoleName(role) != name
  {
    if name == "manager" then Some(Manager)
    else if name == "developer" then Some(Developer)
    else if name == "viewer" then Some(Viewer)
    else if name == "reporter" then Some(Reporter)
    else None
  }

  /** One set of users per role (the inner maps keyed by role name). */
  datatype Buckets = Buckets(managers: set<string>, developers: set<string>, viewers: set<string>, reporters: set<string>)
  {
    function Get(role: Role): set<string>
    {
      match role
      case Manager => managers
      case Developer => developers
      case Viewer => viewers
      case Reporter => reporters
    }

    /** `Get` after recording `user` under `role`. */
    function Add(role: Role, user: string): (b: Buckets)
      ensures b.Get(role) == Get(role) + {user}
      ensures forall other :: other != role ==> b.Get(other) == Get(other)
    {
      match role
      case Manager => this.(managers := managers + {user})
      case Developer => this.(developers := developers + {user})
      case Viewer => this.(viewers := viewers + {user})
      case Reporter => this.(reporters := reporters + {user})
    }
  }

  const NoMembers := Buckets({}, {}, {}, {})

  /** The desired buckets: a user lands in the first of the four lists (in
      precedence order) that contains it. */
  function Precedence(managers: seq<string>, developers: seq<string>, viewers: seq<string>, reporters: seq<string>): Buckets
  {
    var m := Elems(managers);
    var d := Elems(developers) - m;
    var v := Elems(viewers) - m - d;
    Buckets(m, d, v, Elems(reporters) - m - d - v)
  }

  /** The reference for precedence: the highest role whose list names the
      user. */
  function HighestRole(managers: seq<string>, developers: seq<string>, viewers: seq<string>, reporters: seq<string>, user: string): Option<Role>
  {
    if user in managers then Some(Manager)
    else if user in developers then Some(Developer)
    else if user in viewers then Some(Viewer)
    else if user in reporters then Some(Reporter)
    else None
  }

  /** The desired buckets hold each user under its highest role and nowhere
      else, so they are pairwise disjoint and together hold every listed
      user. */
  lemma PrecedenceByHighestRole(managers: seq<string>, developers: seq<string>, viewers: seq<string>, reporters: seq<string>, user: string, role: Role)
    ensures user in Precedence(managers, developers, viewers, reporters).Get(role) <==>
      HighestRole(managers, developers, viewers, reporters, user) == Some(role)
  {
  }

  /** Every listed user is in some bucket, and no unlisted user is. */
  lemma PrecedenceCovers(managers: seq<string>, developers: seq<string>, viewers: seq<string>, reporters: seq<string>, user: string)
    ensures (exists role :: user in Precedence(managers, developers, viewers, reporters).Get(role)) <==>
      user in managers + developers + viewers + reporters
  {
    var b := Precedence(managers, developers, viewers, reporters);
    if user in managers + developers + viewers + reporters {
      var role := HighestRole(managers, developers, viewers, reporters, user).value;
      assert user in b.Get(role);
    }
  }

  /** No user is in two buckets. */
  lemma PrecedenceDisjoint(managers: seq<string>, developers: seq<string>, viewers: seq<string>, reporters: seq<string>, r1: Role, r2: Role)
    requires r1 != r2
    ensures Precedence(managers, developers, viewers, reporters).Get(r1)
      !! Precedence(managers, developers, viewers, reporters).Get(r2)
  {
  }

  /** `getMembersMap`: fills the four buckets in precedence order, skipping a
      user already placed in a higher bucket. */
  method GetMembersMap(managers: seq<string>, developers: seq<string>, viewers: seq<string>, reporters: seq<string>) returns (members: Buckets)
    ensures members == Precedence(managers, developers, viewers, reporters)
  {
    var mapManagers: set<string> := {};
    var mapDevelopers: set<string> := {};
    var mapViewers: set<string> := {};
    var mapReporters: set<string> := {};
    for i := 0 to |managers|
      invariant mapManagers == Elems(managers[..i])
    {
      mapManagers := mapManagers + {managers[i]};
      assert managers[..i + 1] == managers[..i] + [managers[i]];
    }
    for i := 0 to |developers|
      invariant mapDevelopers == Elems(developers[..i]) - mapManagers
    {
      if developers[i] !in mapManagers {
        mapDevelopers := mapDevelopers + {developers[i]};
      }
      assert developers[..i + 1] == developers[..i] + [developers[i]];
    }
    for i := 0 to |viewers|
      invariant mapViewers == Elems(viewers[..i]) - mapManagers - mapDevelopers
    {
      if viewers[i] !in mapManagers && viewers[i] !in mapDevelopers {
        mapViewers := mapViewers + {viewers[i]};
      }
      assert viewers[..i + 1] == viewers[..i] + [viewers[i]];
    }
    for i := 0 to |reporters|
      invariant mapReporters == Elems(reporters[..i]) - mapManagers - mapDevelopers - mapViewers
    {
      if reporters[i] !in mapManagers && reporters[i] !in mapDevelopers && reporters[i] !in mapViewers {
        mapReporters := mapReporters + {reporters[i]};
      }
      assert reporters[..i + 1] == reporters[..i] + [reporters[i]];
    }
    assert managers[..|managers|] == managers;
    assert developers[..|developers|] == developers;
    assert viewers[..|viewers|] == viewers;
    assert reporters[..|reporters|] == reporters;
    members := Buckets(mapManagers, mapDevelopers, mapViewers, mapReporters);
  }

  /** The buckets recorded by a list of privileges: each user under the role
      its row names (rows naming no role are not recorded). */
  function Existing(ps: seq<Privilege>): Buckets
  {
    if |ps| == 0 then NoMembers
    else
      var last := ps[|ps| - 1];
      match RoleOf(last.kind)
      case None => Existing(ps[..|ps| - 1])
      case Some(role) => Existing(ps[..|ps| - 1]).Add(role, last.user)
  }

  /** A user is recorded under a role exactly when some row grants it. */
  lemma {:induction false} ExistingMembership(ps: seq<Privilege>, user: string, role: Role)
    ensures user in Existing(ps).Get(role) <==>
      exists k :: 0 <= k < |ps| && ps[k].user == user && ps[k].kind == RoleName(role)
  {
    if |ps| > 0 {
      var init := ps[..|ps| - 1];
      var last := ps[|ps| - 1];
      ExistingMembership(init, user, role);
      ExistingLast(ps, role, user);
      assert forall k :: 0 <= k < |init| ==> ps[k] == init[k];
      if user in Existing(ps).Get(role) && user !in Existing(init).Get(role) {
        assert last.user == user && last.kind == RoleName(role);
      }
    }
  }

  /** The last row adds its user under its role, if it names one. */
  lemma ExistingLast(ps: seq<Privilege>, role: Role, u: string)
    requires |ps| > 0
    ensures var last := ps[|ps| - 1];
      u in Existing(ps).Get(role) <==>
        u in Existing(ps[..|ps| - 1]).Get(role) || (last.user == u && last.kind == RoleName(role))
  {
    var last := ps[|ps| - 1];
    var named := RoleOf(last.kind);
    if named.Some? && named.value != role {
      RoleNameInjective(named.value, role);
    }
  }

  /** Different roles have different names. */
  lemma RoleNameInjective(r: Role, s: Role)
    requires r != s
    ensures RoleName(r) != RoleName(s)
  {
  }

  /** Every row names one of the four roles. */
  predicate KnownRoles(ps: seq<Privilege>)
  {
    forall k :: 0 <= k < |ps| ==> RoleOf(ps[k].kind).Some?
  }

  /** `getMembersMapByDB`: records each privilege under its role. Writing
      under a name that is not a role writes into a missing inner map, which
      panics; that outcome is `None`. */
  method GetMembersMapByDB(ps: seq<Privilege>) returns (members: Option<Buckets>)
    ensures members.None? <==> !KnownRoles(ps)
    ensures members.Some? ==> members.value == Existing(ps)
  {
    var b := NoMembers;
    for i := 0 to |ps|
      invariant KnownUpTo(ps, i)
      invariant b == Existing(ps[..i])
    {
      var p := ps[i];
      var role := RoleOf(p.kind);
      if role.None? {
        assert !KnownRoles(ps) by {
          assert !RoleOf(ps[i].kind).Some?;
        }
        return None;
      }
      KnownUpToStep(ps, i);
      ExistingStep(ps, i);
      b := b.Add(role.value, p.user);
    }
    assert ps[..|ps|] == ps;
    members := Some(b);
  }

  /** The first `i` rows name roles. */
  predicate KnownUpTo(ps: seq<Privilege>, i: nat)
  {
    forall k :: 0 <= k < i && k < |ps| ==> RoleOf(ps[k].kind).Some?
  }

  /** One more row naming a role. */
  lemma KnownUpToStep(ps: seq<Privilege>, i: nat)
    requires i < |ps| && KnownUpTo(ps, i) && RoleOf(ps[i].kind).Some?
    ensures KnownUpTo(ps, i + 1)
  {
  }

  /** Recording one more privilege that names a role. */
  lemma ExistingStep(ps: seq<Privilege>, i: nat)
    requires i < |ps| && RoleOf(ps[i].kind).Some?
    ensures Existing(ps[..i + 1]) == Existing(ps[..i]).Add(RoleOf(ps[i].kind).value, ps[i].user)
  {
    assert ps[..i + 1][..i] == ps[..i];
  }

  /** The `add*`/`remove*` loop: the users of `from` that are not in
      `without`, each once, in map iteration order. */
  method Difference(from: set<string>, without: set<string>) returns (list: seq<string>)
    ensures Distinct(list)
    ensures forall u :: u in list <==> u in from && u !in without
  {
    list := [];
    var unvisited := from;
    while unvisited != {}
      invariant unvisited <= from
      invariant Distinct(list)
      invariant forall u :: u in list <==> u in from - unvisited && u !in without
      decreases |unvisited|
    {
      var u :| u in unvisited;
      unvisited := unvisited - {u};
      if u !in without {
        list := list + [u];
      }
    }
  }

  /** The additions and removals logged for one role. */
  datatype RoleDiff = RoleDiff(additions: seq<string>, removals: seq<string>)

  /** The lists logged for the four roles. */
  datatype MemberDiff = MemberDiff(managers: RoleDiff, developers: RoleDiff, viewers: RoleDiff, reporters: RoleDiff)
  {
    function Get(role: Role): RoleDiff
    {
      match role
      case Manager => managers
      case Developer => developers
      case Viewer => viewers
      case Reporter => reporters
    }
  }

  /** The lists of each role are the two set differences between the
      desired and the recorded buckets, without repetition. */
  ghost predicate Describes(diff: MemberDiff, desired: Buckets, existing: Buckets)
  {
    forall role ::
      && Distinct(diff.Get(role).additions)
      && Distinct(diff.Get(role).removals)
      && (forall u :: u in diff.Get(role).additions <==> u in desired.Get(role) - existing.Get(role))
      && (forall u :: u in diff.Get(role).removals <==> u in existing.Get(role) - desired.Get(role))
  }

  /** No user is both added to and removed from a role, and a role whose
      desired and recorded buckets agree gets two empty lists. */
  lemma DescribedLists(diff: MemberDiff, desired: Buckets, existing: Buckets, role: Role)
    requires Describes(diff, desired, existing)
    ensures Elems(diff.Get(role).additions) !! Elems(diff.Get(role).removals)
    ensures desired.Get(role) == existing.Get(role) ==> diff.Get(role) == RoleDiff([], [])
  {
    if desired.Get(role) == existing.Get(role) {
      EmptyList(diff.Get(role).additions);
      EmptyList(diff.Get(role).removals);
    }
  }

  /** Both lists of one role, computed with two `Difference` loops. */
  method DiffRole(desired: set<string>, existing: set<string>) returns (d: RoleDiff)
    ensures Distinct(d.additions) && Distinct(d.removals)
    ensures forall u :: u in d.additions <==> u in desired - existing
    ensures forall u :: u in d.removals <==> u in existing - desired
  {
    var additions := Difference(desired, existing);
    var removals := Difference(existing, desired);
    d := RoleDiff(additions, removals);
  }

  /** The eight `add*`/`remove*` calls of `handleMembers`, in their order. */
  method DiffMembers(desired: Buckets, existing: Buckets) returns (diff: MemberDiff)
    ensures Describes(diff, desired, existing)
  {
    var managers := DiffRole(desired.managers, existing.managers);
    var developers := DiffRole(desired.developers, existing.developers);
    var viewers := DiffRole(desired.viewers, existing.viewers);
    var reporters := DiffRole(desired.reporters, existing.reporters);
    diff := MemberDiff(managers, developers, viewers, reporters);
  }

  /** A user named as both manager and viewer is desired as manager only. */
  lemma ManagerWinsOverViewer(managers: seq<string>, developers: seq<string>, viewers: seq<string>, reporters: seq<string>, user: string)
    requires user in managers && user in viewers
    ensures user in Precedence(managers, developers, viewers, reporters).managers
    ensures user !in Precedence(managers, developers, viewers, reporters).viewers
  {
  }

  /** Desired alice as manager and bob as developer; recorded bob as
      developer and carol as viewer, both on repository foo: alice is added
      as manager, carol removed as viewer, and nothing else changes. */
  lemma DiffScenario(owner: string, alice: string, bob: string, carol: string, diff: MemberDiff)
    requires alice != bob && bob != carol && alice != carol
    requires Describes(diff, Precedence([alice], [bob], [], []),
      Existing([Privilege(owner, "foo", bob, "developer"), Privilege(owner, "foo", carol, "viewer")]))
    ensures Elems(diff.managers.additions) == {alice} && diff.managers.removals == []
    ensures diff.developers == RoleDiff([], [])
    ensures diff.viewers.additions == [] && Elems(diff.viewers.removals) == {carol}
    ensures diff.reporters == RoleDiff([], [])
  {
    var ps := [Privilege(owner, "foo", bob, "developer"), Privilege(owner, "foo", carol, "viewer")];
    ExistingStep(ps, 0);
    ExistingStep(ps, 1);
    assert ps[..0] == [] && ps[..2] == ps;
    var existing := Existing(ps);
    assert existing == Buckets({}, {bob}, {carol}, {});
    var desired := Precedence([alice], [bob], [], []);
    assert desired == Buckets({alice}, {bob}, {}, {});
    assert diff.Get(Manager) == diff.managers && diff.Get(Viewer) == diff.viewers;
    assert desired.Get(Manager) == desired.managers && existing.Get(Manager) == existing.managers;
    DescribedLists(diff, desired, existing, Developer);
    DescribedLists(diff, desired, existing, Reporter);
    assert forall u :: u in diff.managers.removals <==> u in existing.managers - desired.managers;
    EmptyList(diff.managers.removals);
    assert forall u :: u in diff.viewers.additions <==> u in desired.viewers - existing.viewers;
    EmptyList(diff.viewers.additions);
    assert forall u :: u in diff.managers.additions <==> u in desired.managers - existing.managers;
    assert forall u :: u in diff.viewers.removals <==> u in existing.viewers - desired.viewers;
  }

  /** A list with no element is empty. */
  lemma EmptyList(s: seq<string>)
    ensures (forall u :: u !in s) ==> s == []
  {
    if |s| > 0 {
      assert s[0] in s;
    }
  }
}
