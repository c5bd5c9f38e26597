/** The bot's database tables (project files, repositories and privileges)
    as an in-memory store: each table is a sequence of rows in primary-key
    order, and the gorm queries the watcher issues are functions over it. */
module Database {
  import opened Base

  /** A row of the project-files table: the watched manifest and its three
      hashes. */
  datatype ProjectFile = ProjectFile(
    id: nat, owner: string, repo: string, path: string, ref: string,
    currentSha: string, targetSha: string, waitingSha: string)

  /** The configured owner, repository, path and ref of the watched file. */
  datatype WatchTarget = WatchTarget(owner: string, repo: string, path: string, ref: string)

  /** A row of the repositories table. */
  datatype RepositoryRow = RepositoryRow(
    owner: string, repo: string, description: string, kind: string, projectFileId: nat)

  /** A row of the privileges table: `kind` holds the role name. */
  datatype Privilege = Privilege(owner: string, repo: string, user: string, kind: string)

  /** The condition `owner = ? and repo = ? and path = ? and ref = ?`. */
  predicate Watches(pf: ProjectFile, w: WatchTarget)
  {
    pf.owner == w.owner && pf.repo == w.repo && pf.path == w.path && pf.ref == w.ref
  }

  /** The number of project files a watch target selects (`Count`). */
  function CountWatched(pfs: seq<ProjectFile>, w: WatchTarget): nat
  {
    if |pfs| == 0 then 0
    else CountWatched(pfs[..|pfs| - 1], w) + (if Watches(pfs[|pfs| - 1], w) then 1 else 0)
  }

  /** The position of the first project file a watch target selects
      (`First`, in primary-key order). */
  function FirstWatched(pfs: seq<ProjectFile>, w: WatchTarget): (r: Option<nat>)
    ensures r.Some? ==> r.value < |pfs| && Watches(pfs[r.value], w)
    ensures r.Some? ==> forall j :: 0 <= j < r.value ==> !Watches(pfs[j], w)
    ensures r.None? ==> forall j :: 0 <= j < |pfs| ==> !Watches(pfs[j], w)
  {
    if |pfs| == 0 then None
    else if Watches(pfs[0], w) then Some(0)
    else match FirstWatched(pfs[1..], w)
      case None => None
      case Some(i) => Some(i + 1)
  }

  /** A positive count is exactly a successful `First`. */
  lemma {:induction false} CountWatchedPositive(pfs: seq<ProjectFile>, w: WatchTarget)
    ensures CountWatched(pfs, w) > 0 <==> FirstWatched(pfs, w).Some?
  {
    if |pfs| > 0 {
      var init := pfs[..|pfs| - 1];
      CountWatchedPositive(init, w);
      if FirstWatched(init, w).Some? {
        assert Watches(pfs[FirstWatched(init, w).value], w);
      } else {
        assert forall j :: 0 <= j < |init| ==> pfs[j] == init[j];
      }
    }
  }

  /** Replacing the first selected row by another row the target selects
      keeps it first. */
  lemma FirstWatchedUpdate(pfs: seq<ProjectFile>, w: WatchTarget, k: nat, pf: ProjectFile)
    requires FirstWatched(pfs, w) == Some(k) && Watches(pf, w)
    ensures FirstWatched(pfs[k := pf], w) == Some(k)
  {
    var s := pfs[k := pf];
    assert Watches(s[k], w);
    assert forall j :: 0 <= j < k ==> !Watches(s[j], w);
  }

  /** A row appended to a table the target selects nothing in is the first
      one it selects. */
  lemma FirstWatchedAppend(pfs: seq<ProjectFile>, w: WatchTarget, pf: ProjectFile)
    requires FirstWatched(pfs, w).None? && Watches(pf, w)
    ensures FirstWatched(pfs + [pf], w) == Some(|pfs|)
  {
    var s := pfs + [pf];
    assert Watches(s[|pfs|], w);
    assert forall j :: 0 <= j < |pfs| ==> !Watches(s[j], w);
  }

  /** The condition `owner = ? and repo = ? and project_file_id = ?`. */
  predicate RowFor(row: RepositoryRow, owner: string, repo: string, id: nat)
  {
    row.owner == owner && row.repo == repo && row.projectFileId == id
  }

  /** The number of repository rows for a repository of a project file. */
  function CountRepositories(rows: seq<RepositoryRow>, owner: string, repo: string, id: nat): nat
  {
    if |rows| == 0 then 0
    else
      var last := if RowFor(rows[|rows| - 1], owner, repo, id) then 1 else 0;
      CountRepositories(rows[..|rows| - 1], owner, repo, id) + last
  }

  /** The count is zero exactly when no row matches. */
  lemma {:induction false} CountRepositoriesZero(rows: seq<RepositoryRow>, owner: string, repo: string, id: nat)
    ensures CountRepositories(rows, owner, repo, id) == 0 <==>
      forall k :: 0 <= k < |rows| ==> !RowFor(rows[k], owner, repo, id)
  {
    if |rows| > 0 {
      var init := rows[..|rows| - 1];
      CountRepositoriesZero(init, owner, repo, id);
      assert forall k :: 0 <= k < |init| ==> rows[k] == init[k];
    }
  }

  /** The privileges of one repository (`Find` with `owner = ? and repo = ?`),
      in table order. */
  function PrivilegesOf(ps: seq<Privilege>, owner: string, repo: string): (r: seq<Privilege>)
    ensures forall p :: p in r <==> p in ps && p.owner == owner && p.repo == repo
  {
    if |ps| == 0 then []
    else
      var init := PrivilegesOf(ps[..|ps| - 1], owner, repo);
      var last := ps[|ps| - 1];
      assert ps == ps[..|ps| - 1] + [last];
      if last.owner == owner && last.repo == repo then init + [last] else init
  }

  /** The database: three tables, each a sequence of rows. */
  class Store {
    var projectFiles: seq<ProjectFile>
    var repositories: seq<RepositoryRow>
    var privileges: seq<Privilege>

    /** Project-file ids are assigned in insertion order, starting at 1. */
    ghost predicate Valid()
      reads this
    {
      forall i :: 0 <= i < |projectFiles| ==> projectFiles[i].id == i + 1
    }

    /** An empty database. */
    constructor ()
      ensures Valid()
      ensures projectFiles == [] && repositories == [] && privileges == []
    {
      projectFiles := [];
      repositories := [];
      privileges := [];
    }

    /** `Create` of a project file: the row is appended under the next id. */
    method CreateProjectFile(pf: ProjectFile) returns (created: ProjectFile)
      requires Valid()
      modifies this
      ensures Valid()
      ensures created == pf.(id := |old(projectFiles)| + 1)
      ensures projectFiles == old(projectFiles) + [created]
      ensures repositories == old(repositories) && privileges == old(privileges)
    {
      created := pf.(id := |projectFiles| + 1);
      projectFiles := projectFiles + [created];
    }

    /** `Save` of a project file read from the table: the row with its id is
      replaced. */
    method SaveProjectFile(pf: ProjectFile)
      requires Valid()
      requires 1 <= pf.id <= |projectFiles|
      modifies this
      ensures Valid()
      ensures projectFiles == old(projectFiles)[pf.id - 1 := pf]
      ensures repositories == old(repositories) && privileges == old(privileges)
    {
      projectFiles := projectFiles[pf.id - 1 := pf];
    }

    /** `Create` of a repository row. */
    method CreateRepository(row: RepositoryRow)
      modifies this
      ensures repositories == old(repositories) + [row]
      ensures projectFiles == old(projectFiles) && privileges == old(privileges)
    {
      repositories := repositories + [row];
    }
  }
}
