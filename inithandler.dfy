/** The start-up and watch steps of the init handler: recording the fetched
    hash of the project file, one tick of the watch loop, and the
    per-repository work of a promoted manifest (creating the repository
    once, then computing the member differences). Calls to Gitee and
    failures of database queries are parameters: each says whether that
    call fails. */
module InitHandler {
  import opened Base
  import opened Database
  import opened Members
  import opened Watch

  /** The `community` section of the manifest. */
  datatype Community = Community(
    name: string,
    managers: seq<string>, developers: seq<string>, viewers: seq<string>, reporters: seq<string>)

  /** One entry of the `repositories` section of the manifest. */
  datatype Repository = Repository(
    name: string, description: string, kind: string,
    managers: seq<string>, developers: seq<string>, viewers: seq<string>, reporters: seq<string>)

  /** A parsed manifest. */
  datatype Projects = Projects(community: Community, repositories: seq<Repository>)

  /** `isUsingRepositoryMember`: the repository names members of its own. */
  function IsUsingRepositoryMember(r: Repository): (b: bool)
    ensures b <==> exists u :: u in r.managers + r.developers + r.viewers + r.reporters
  {
    var all := r.managers + r.developers + r.viewers + r.reporters;
    assert |all| > 0 ==> all[0] in all;
    |r.managers| > 0 || |r.developers| > 0 || |r.viewers| > 0 || |r.reporters| > 0
  }

  /** The desired buckets of a repository: from its own lists when it names
      any member, otherwise from the community's; never from both. */
  function Desired(c: Community, r: Repository): Buckets
  {
    if IsUsingRepositoryMember(r) then Precedence(r.managers, r.developers, r.viewers, r.reporters)
    else Precedence(c.managers, c.developers, c.viewers, c.reporters)
  }

  /** A repository that names members of its own gets exactly its own users,
      and every one of them; otherwise exactly the community's. */
  lemma DesiredSource(c: Community, r: Repository, user: string)
    ensures (exists role :: user in Desired(c, r).Get(role)) <==>
      if IsUsingRepositoryMember(r) then user in r.managers + r.developers + r.viewers + r.reporters
      else user in c.managers + c.developers + c.viewers + c.reporters
  {
    if IsUsingRepositoryMember(r) {
      assert Desired(c, r) == Precedence(r.managers, r.developers, r.viewers, r.reporters);
      PrecedenceCovers(r.managers, r.developers, r.viewers, r.reporters, user);
    } else {
      assert Desired(c, r) == Precedence(c.managers, c.developers, c.viewers, c.reporters);
      PrecedenceCovers(c.managers, c.developers, c.viewers, c.reporters, user);
    }
  }

  /** A repository naming only developers of its own inherits nothing from
      the community, not even for the other three roles. */
  lemma DevelopersOnlyOverride(c: Community, r: Repository)
    requires |r.developers| > 0 && r.managers == [] && r.viewers == [] && r.reporters == []
    ensures Desired(c, r) == Buckets({}, Elems(r.developers), {}, {})
  {
    assert r.developers[0] in r.developers;
  }

  /** What member handling produced: the privileges query failed, writing a
      recorded privilege under an unknown role panicked, or the lists of the
      eight `add*`/`remove*` calls. */
  datatype MembersOutcome = QueryFailed | Panicked | Diffed(diff: MemberDiff)

  /** The outcome member handling has for a repository, given the recorded
      privileges. */
  ghost predicate MembersFit(m: MembersOutcome, privileges: seq<Privilege>, c: Community, r: Repository, queryFails: bool)
  {
    var ps := PrivilegesOf(privileges, c.name, r.name);
    if queryFails then m == QueryFailed
    else if !KnownRoles(ps) then m == Panicked
    else m.Diffed? && Describes(m.diff, Desired(c, r), Existing(ps))
  }

  /** `handleMembers`: the desired buckets, the recorded ones, and their
      differences per role. Nothing is written. */
  method HandleMembers(db: Store, c: Community, r: Repository, queryFails: bool) returns (outcome: MembersOutcome)
    ensures MembersFit(outcome, db.privileges, c, r, queryFails)
  {
    var members: Buckets;
    if IsUsingRepositoryMember(r) {
      members := GetMembersMap(r.managers, r.developers, r.viewers, r.reporters);
    } else {
      members := GetMembersMap(c.managers, c.developers, c.viewers, c.reporters);
    }
    if queryFails {
      return QueryFailed;
    }
    var ps := PrivilegesOf(db.privileges, c.name, r.name);
    var membersInDB := GetMembersMapByDB(ps);
    if membersInDB.None? {
      return Panicked;
    }
    var diff := DiffMembers(members, membersInDB.value);
    outcome := Diffed(diff);
  }

  /** The body of the create-repository request. */
  datatype RepoPost = RepoPost(
    org: string, name: string, description: string, hasIssues: bool, hasWiki: bool, private: bool)

  /** The request for a declared repository: issues and wiki on, private
      exactly when the declared type is `private`. */
  function PostFor(owner: string, repo: string, description: string, kind: string): (p: RepoPost)
    ensures p.org == owner && p.name == repo && p.description == description
    ensures p.hasIssues && p.hasWiki
    ensures p.private <==> kind == "private"
  {
    RepoPost(owner, repo, description, true, true, kind == "private")
  }

  /** `addRepositoriesinGitee`: builds the request and posts it. */
  method AddRepositoriesInGitee(owner: string, repo: string, description: string, kind: string, remoteFails: bool)
    returns (request: RepoPost, err: bool)
    ensures request == PostFor(owner, repo, description, kind)
    ensures err == remoteFails
  {
    var private: bool;
    if kind == "private" {
      private := true;
    } else {
      private := false;
    }
    request := RepoPost(owner, repo, description, true, true, private);
    err := remoteFails;
  }

  /** What happened to the repository itself: it had a row already, or the
      request was posted and then failed, or the row insert failed, or both
      succeeded. */
  datatype Creation = Existed | RemoteFailed(request: RepoPost) | InsertFailed(request: RepoPost) | Created(request: RepoPost)

  /** `addRepositories`: the remote create first; the row is inserted only
      after it succeeds. */
  method AddRepositories(db: Store, owner: string, repo: string, description: string, kind: string, id: nat,
                         remoteFails: bool, insertFails: bool) returns (creation: Creation)
    modifies db
    ensures var p := PostFor(owner, repo, description, kind);
      creation == if remoteFails then RemoteFailed(p) else if insertFails then InsertFailed(p) else Created(p)
    ensures db.repositories == if creation.Created? then old(db.repositories) + [RepositoryRow(owner, repo, description, kind, id)]
      else old(db.repositories)
    ensures db.projectFiles == old(db.projectFiles) && db.privileges == old(db.privileges)
  {
    var request, err := AddRepositoriesInGitee(owner, repo, description, kind, remoteFails);
    if err {
      return RemoteFailed(request);
    }
    if insertFails {
      return InsertFailed(request);
    }
    db.CreateRepository(RepositoryRow(owner, repo, description, kind, id));
    creation := Created(request);
  }

  /** Which calls fail while one declared repository is handled: the count
      query, the remote create, the row insert, the privileges query. */
  datatype RepoFaults = RepoFaults(countFails: bool, remoteFails: bool, insertFails: bool, queryFails: bool)

  const NoRepoFaults := RepoFaults(false, false, false, false)

  /** The faults of the `i`-th repository; repositories past the end of the
      list see none. */
  function FaultsAt(faults: seq<RepoFaults>, i: nat): RepoFaults
  {
    if i < |faults| then faults[i] else NoRepoFaults
  }

  /** What handling a repository did to it, given the rows before. */
  function CreationOf(rows: seq<RepositoryRow>, c: Community, r: Repository, id: nat, f: RepoFaults): Creation
  {
    if CountRepositories(rows, c.name, r.name, id) > 0 then Existed
    else
      var p := PostFor(c.name, r.name, r.description, r.kind);
      if f.remoteFails then RemoteFailed(p) else if f.insertFails then InsertFailed(p) else Created(p)
  }

  /** The repository rows after handling one declared repository. */
  function RowAfter(rows: seq<RepositoryRow>, c: Community, r: Repository, id: nat, f: RepoFaults): seq<RepositoryRow>
  {
    if !f.countFails && CreationOf(rows, c, r, id, f).Created? then
      rows + [RepositoryRow(c.name, r.name, r.description, r.kind, id)]
    else rows
  }

  /** The repository rows after handling the first `n` declared
      repositories. */
  function RowsAfter(rows: seq<RepositoryRow>, c: Community, repos: seq<Repository>, id: nat, faults: seq<RepoFaults>, n: nat): seq<RepositoryRow>
    requires n <= |repos|
  {
    if n == 0 then rows
    else RowAfter(RowsAfter(rows, c, repos, id, faults, n - 1), c, repos[n - 1], id, FaultsAt(faults, n - 1))
  }

  /** What was reported for one declared repository: the count query failed
      and the repository was skipped, or its creation and member handling. */
  datatype RepoReport = CountFailed | Handled(creation: Creation, members: MembersOutcome)

  /** The report a declared repository gets, given the rows before it. */
  ghost predicate ReportFits(rep: RepoReport, rows: seq<RepositoryRow>, privileges: seq<Privilege>,
                             c: Community, r: Repository, id: nat, f: RepoFaults)
  {
    if f.countFails then rep == CountFailed
    else
      && rep.Handled?
      && rep.creation == CreationOf(rows, c, r, id, f)
      && MembersFit(rep.members, privileges, c, r, f.queryFails)
  }

  /** The panic of member handling, which ends the process. */
  predicate Crashed(rep: RepoReport)
  {
    rep.Handled? && rep.members.Panicked?
  }

  /** One pass of the loop body for a declared repository: the count query,
      the creation when no row exists, then member handling; a failed count
      skips the rest. */
  method HandleRepository(db: Store, c: Community, r: Repository, id: nat, f: RepoFaults) returns (report: RepoReport)
    modifies db
    ensures ReportFits(report, old(db.repositories), db.privileges, c, r, id, f)
    ensures db.repositories == RowAfter(old(db.repositories), c, r, id, f)
    ensures db.projectFiles == old(db.projectFiles) && db.privileges == old(db.privileges)
  {
    if f.countFails {
      return CountFailed;
    }
    var lenRepositories := CountRepositories(db.repositories, c.name, r.name, id);
    var creation: Creation;
    if lenRepositories > 0 {
      creation := Existed;
    } else {
      creation := AddRepositories(db, c.name, r.name, r.description, r.kind, id, f.remoteFails, f.insertFails);
    }
    var members := HandleMembers(db, c, r, f.queryFails);
    report := Handled(creation, members);
  }

  /** Each report fits its repository, given the rows left by the
      repositories before it. */
  ghost predicate ReportsFit(reports: seq<RepoReport>, rows: seq<RepositoryRow>, privileges: seq<Privilege>,
                             c: Community, repos: seq<Repository>, id: nat, faults: seq<RepoFaults>)
    decreases |reports|
  {
    && |reports| <= |repos|
    && (|reports| > 0 ==>
          var n := |reports| - 1;
          && ReportsFit(reports[..n], rows, privileges, c, repos, id, faults)
          && ReportFits(reports[n], RowsAfter(rows, c, repos, id, faults, n), privileges, c, repos[n], id, FaultsAt(faults, n)))
  }

  /** The report of the `i`-th repository fits it. */
  lemma {:induction false} ReportsFitEach(reports: seq<RepoReport>, rows: seq<RepositoryRow>, privileges: seq<Privilege>,
                                          c: Community, repos: seq<Repository>, id: nat, faults: seq<RepoFaults>, i: nat)
    requires ReportsFit(reports, rows, privileges, c, repos, id, faults) && i < |reports|
    ensures ReportFits(reports[i], RowsAfter(rows, c, repos, id, faults, i), privileges, c, repos[i], id, FaultsAt(faults, i))
    decreases |reports|
  {
    var n := |reports| - 1;
    if i < n {
      ReportsFitEach(reports[..n], rows, privileges, c, repos, id, faults, i);
    }
  }

  /** The report of the next repository extends the reports that fit. */
  lemma ReportsFitSnoc(reports: seq<RepoReport>, rep: RepoReport, rows: seq<RepositoryRow>, privileges: seq<Privilege>,
                       c: Community, repos: seq<Repository>, id: nat, faults: seq<RepoFaults>)
    requires ReportsFit(reports, rows, privileges, c, repos, id, faults) && |reports| < |repos|
    requires var n := |reports|;
      ReportFits(rep, RowsAfter(rows, c, repos, id, faults, n), privileges, c, repos[n], id, FaultsAt(faults, n))
    ensures ReportsFit(reports + [rep], rows, privileges, c, repos, id, faults)
  {
    assert (reports + [rep])[..|reports|] == reports;
  }

  /** The loop over the declared repositories of a promoted manifest. A
      failure for one repository is logged and the loop goes on with the
      next; only a panic stops it. */
  method ReconcileRepositories(db: Store, c: Community, repos: seq<Repository>, id: nat, faults: seq<RepoFaults>)
    returns (reports: seq<RepoReport>)
    modifies db
    ensures ReportsFit(reports, old(db.repositories), db.privileges, c, repos, id, faults)
    ensures db.repositories == RowsAfter(old(db.repositories), c, repos, id, faults, |reports|)
    ensures db.projectFiles == old(db.projectFiles) && db.privileges == old(db.privileges)
    ensures forall i :: 0 <= i < |reports| - 1 ==> !Crashed(reports[i])
    ensures |reports| < |repos| ==> |reports| > 0 && Crashed(reports[|reports| - 1])
  {
    reports := [];
    var i := 0;
    while i < |repos|
      invariant 0 <= i <= |repos| && |reports| == i
      invariant db.repositories == RowsAfter(old(db.repositories), c, repos, id, faults, i)
      invariant db.projectFiles == old(db.projectFiles) && db.privileges == old(db.privileges)
      invariant ReportsFit(reports, old(db.repositories), db.privileges, c, repos, id, faults)
      invariant forall j :: 0 <= j < i ==> !Crashed(reports[j])
    {
      var report := HandleRepository(db, c, repos[i], id, FaultsAt(faults, i));
      ReportsFitSnoc(reports, report, old(db.repositories), db.privileges, c, repos, id, faults);
      reports := reports + [report];
      i := i + 1;
      if Crashed(report) {
        return;
      }
    }
  }

  /** No two rows are for the same repository of the same project file. */
  predicate UniqueRows(rows: seq<RepositoryRow>)
  {
    forall i, j :: 0 <= i < j < |rows| ==> !RowFor(rows[j], rows[i].owner, rows[i].repo, rows[i].projectFileId)
  }

  /** A row is inserted only when none exists, so rows stay unique. */
  lemma {:induction false} RowsAfterUnique(rows: seq<RepositoryRow>, c: Community, repos: seq<Repository>, id: nat,
                                           faults: seq<RepoFaults>, n: nat)
    requires n <= |repos| && UniqueRows(rows)
    ensures UniqueRows(RowsAfter(rows, c, repos, id, faults, n))
  {
    if n > 0 {
      var before := RowsAfter(rows, c, repos, id, faults, n - 1);
      RowsAfterUnique(rows, c, repos, id, faults, n - 1);
      var r := repos[n - 1];
      CountRepositoriesZero(before, c.name, r.name, id);
    }
  }

  /** Rows are only ever appended. */
  lemma {:induction false} RowsAfterExtends(rows: seq<RepositoryRow>, c: Community, repos: seq<Repository>, id: nat,
                                            faults: seq<RepoFaults>, n: nat)
    requires n <= |repos|
    ensures rows <= RowsAfter(rows, c, repos, id, faults, n)
  {
    if n > 0 {
      RowsAfterExtends(rows, c, repos, id, faults, n - 1);
    }
  }

  /** No count query, remote create or row insert fails. */
  predicate CreationsSucceed(faults: seq<RepoFaults>)
  {
    forall k :: 0 <= k < |faults| ==> !faults[k].countFails && !faults[k].remoteFails && !faults[k].insertFails
  }

  /** The table has a row for the repository. */
  predicate HasRow(rows: seq<RepositoryRow>, owner: string, repo: string, id: nat)
  {
    exists k :: 0 <= k < |rows| && RowFor(rows[k], owner, repo, id)
  }

  /** When every creation succeeds, each handled repository has a row
      afterwards. */
  lemma {:induction false} RowsAfterCovers(rows: seq<RepositoryRow>, c: Community, repos: seq<Repository>, id: nat,
                                           faults: seq<RepoFaults>, n: nat, k: nat)
    requires n <= |repos| && k < n && CreationsSucceed(faults)
    ensures HasRow(RowsAfter(rows, c, repos, id, faults, n), c.name, repos[k].name, id)
  {
    var after := RowsAfter(rows, c, repos, id, faults, n);
    if k == n - 1 {
      var before := RowsAfter(rows, c, repos, id, faults, n - 1);
      CountRepositoriesZero(before, c.name, repos[k].name, id);
      if CountRepositories(before, c.name, repos[k].name, id) > 0 {
        var j :| 0 <= j < |before| && RowFor(before[j], c.name, repos[k].name, id);
        assert after[j] == before[j];
      } else {
        assert RowFor(after[|before|], c.name, repos[k].name, id);
      }
    } else {
      RowsAfterCovers(rows, c, repos, id, faults, n - 1, k);
      var before := RowsAfter(rows, c, repos, id, faults, n - 1);
      var j :| 0 <= j < |before| && RowFor(before[j], c.name, repos[k].name, id);
      RowsAfterExtends(before, c, repos[n - 1..], id, [], 0);
      assert before <= after;
      assert after[j] == before[j];
    }
  }

  /** Rows that already cover every declared repository are left as they
      are, and every repository is reported as existing. */
  lemma {:induction false} RowsAfterCovered(rows: seq<RepositoryRow>, c: Community, repos: seq<Repository>, id: nat,
                                            faults: seq<RepoFaults>, n: nat)
    requires n <= |repos|
    requires forall k :: 0 <= k < |repos| ==> HasRow(rows, c.name, repos[k].name, id)
    ensures RowsAfter(rows, c, repos, id, faults, n) == rows
    ensures forall k :: 0 <= k < n ==> CreationOf(rows, c, repos[k], id, FaultsAt(faults, k)) == Existed
  {
    if n > 0 {
      RowsAfterCovered(rows, c, repos, id, faults, n - 1);
      var r := repos[n - 1];
      CountRepositoriesZero(rows, c.name, r.name, id);
    }
  }

  /** Handling the same manifest a second time, after a first pass in which
      every creation succeeded, inserts no row and creates no repository. */
  lemma SecondPassCreatesNothing(rows: seq<RepositoryRow>, c: Community, repos: seq<Repository>, id: nat,
                                 faults: seq<RepoFaults>, again: seq<RepoFaults>)
    requires CreationsSucceed(faults)
    ensures var first := RowsAfter(rows, c, repos, id, faults, |repos|);
      && RowsAfter(first, c, repos, id, again, |repos|) == first
      && forall k :: 0 <= k < |repos| ==> CreationOf(first, c, repos[k], id, FaultsAt(again, k)) == Existed
  {
    var first := RowsAfter(rows, c, repos, id, faults, |repos|);
    forall k | 0 <= k < |repos|
      ensures HasRow(first, c.name, repos[k].name, id)
    {
      RowsAfterCovers(rows, c, repos, id, faults, |repos|, k);
    }
    RowsAfterCovered(first, c, repos, id, again, |repos|);
  }

  /** Which calls fail at start-up: the fetch of the file is the `fetched`
      parameter; these are the count, the read, the save and the create. */
  datatype InitFaults = InitFaults(countFails: bool, readFails: bool, saveFails: bool, createFails: bool)

  /** `initWaitingSha`: records the fetched hash of the watched file as its
      waiting hash, in the existing record or in a new one. A failed fetch
      (`None`) or any failed query returns an error and writes nothing. */
  method InitWaitingSha(db: Store, w: WatchTarget, fetched: Option<string>, faults: InitFaults) returns (err: bool)
    requires db.Valid()
    modifies db
    ensures db.Valid()
    ensures db.repositories == old(db.repositories) && db.privileges == old(db.privileges)
    ensures err ==> db.projectFiles == old(db.projectFiles)
    ensures fetched.None? || faults.countFails ==> err
    ensures fetched.Some? && !faults.countFails ==>
      match old(FirstWatched(db.projectFiles, w))
      case Some(k) =>
        && (err <==> faults.readFails || faults.saveFails)
        && (!err ==> db.projectFiles == old(db.projectFiles)[k := Step(old(db.projectFiles[k]), Restart(fetched.value))])
      case None =>
        && (err <==> faults.createFails)
        && (!err ==>
              db.projectFiles == old(db.projectFiles) +
                [ProjectFile(|old(db.projectFiles)| + 1, w.owner, w.repo, w.path, w.ref, "", "", fetched.value)])
    ensures !err ==>
      && FirstWatched(db.projectFiles, w).Some?
      && db.projectFiles[FirstWatched(db.projectFiles, w).value].waitingSha == fetched.value
  {
    if fetched.None? {
      return true;
    }
    var sha := fetched.value;
    if faults.countFails {
      return true;
    }
    var lenProjectFiles := CountWatched(db.projectFiles, w);
    CountWatchedPositive(db.projectFiles, w);
    if lenProjectFiles > 0 {
      if faults.readFails {
        return true;
      }
      var k := FirstWatched(db.projectFiles, w).value;
      var updatepf := db.projectFiles[k];
      updatepf := updatepf.(waitingSha := sha);
      if faults.saveFails {
        return true;
      }
      FirstWatchedUpdate(db.projectFiles, w, k, updatepf);
      db.SaveProjectFile(updatepf);
      err := false;
    } else {
      var addpf := ProjectFile(0, w.owner, w.repo, w.path, w.ref, "", "", sha);
      if faults.createFails {
        return true;
      }
      FirstWatchedAppend(db.projectFiles, w, addpf.(id := |db.projectFiles| + 1));
      var created := db.CreateProjectFile(addpf);
      err := false;
    }
  }

  /** Which calls fail in one tick: reading the record, saving it. */
  datatype TickFaults = TickFaults(readFails: bool, saveFails: bool)

  /** How a tick ended: no record read, a target already in flight, nothing
      waiting, the save failed, the blob could not be fetched or decoded, or
      the repositories of the promoted manifest were handled. */
  datatype TickOutcome = NotRead | InFlight | NothingWaiting | SaveFailed | BlobFailed | Reconciled(reports: seq<RepoReport>)

  /** One tick of `watch`. `projects` is the manifest at the promoted hash,
      `None` when fetching, base64-decoding or parsing it fails. */
  method WatchTick(db: Store, w: WatchTarget, faults: TickFaults, projects: Option<Projects>, repoFaults: seq<RepoFaults>)
    returns (outcome: TickOutcome)
    requires db.Valid()
    modifies db
    ensures db.Valid()
    ensures db.privileges == old(db.privileges)
    ensures faults.readFails || old(FirstWatched(db.projectFiles, w)).None? ==> outcome == NotRead
    ensures !outcome.BlobFailed? && !outcome.Reconciled? ==>
      db.projectFiles == old(db.projectFiles) && db.repositories == old(db.repositories)
    ensures !faults.readFails && old(FirstWatched(db.projectFiles, w)).Some? ==>
      var k := old(FirstWatched(db.projectFiles, w)).value;
      var pf := old(db.projectFiles[k]);
      && (pf.targetSha != "" ==> outcome == InFlight)
      && (pf.targetSha == "" && !Promotable(pf) ==> outcome == NothingWaiting)
      && (Promotable(pf) && faults.saveFails ==> outcome == SaveFailed)
      && (Promotable(pf) && !faults.saveFails ==>
            && db.projectFiles == old(db.projectFiles)[k := Promote(pf)]
            && (projects.None? ==> outcome == BlobFailed && db.repositories == old(db.repositories))
            && (projects.Some? ==>
                 && outcome.Reconciled?
                 && ReportsFit(outcome.reports, old(db.repositories), db.privileges, projects.value.community,
                      projects.value.repositories, pf.id, repoFaults)
                 && db.repositories == RowsAfter(old(db.repositories), projects.value.community,
                      projects.value.repositories, pf.id, repoFaults, |outcome.reports|)
                 && (forall i :: 0 <= i < |outcome.reports| - 1 ==> !Crashed(outcome.reports[i]))
                 && (|outcome.reports| < |projects.value.repositories| ==>
                       |outcome.reports| > 0 && Crashed(outcome.reports[|outcome.reports| - 1]))))
  {
    if faults.readFails {
      return NotRead;
    }
    var first := FirstWatched(db.projectFiles, w);
    if first.None? {
      return NotRead;
    }
    var pf := db.projectFiles[first.value];
    if pf.targetSha != "" {
      return InFlight;
    }
    if !(pf.waitingSha != "" && pf.currentSha != pf.waitingSha) {
      return NothingWaiting;
    }
    pf := pf.(targetSha := pf.waitingSha);
    if faults.saveFails {
      return SaveFailed;
    }
    db.SaveProjectFile(pf);
    if projects.None? {
      return BlobFailed;
    }
    var ps := projects.value;
    var reports := ReconcileRepositories(db, ps.community, ps.repositories, pf.id, repoFaults);
    outcome := Reconciled(reports);
  }
}
