/** The store of persistence.py: the `projects` table with a UNIQUE name and
    the `artifacts` table whose foreign key cascades on delete. Each method is
    one short SQLite transaction; the tables are sequences of rows in their
    physical order, and `projectSeq` / `artifactSeq` are the AUTOINCREMENT
    counters SQLite keeps for each table. The clock reading `now` is passed in
    where the source calls `datetime.now()`. */
module Persistence {
  import opened Tables
  import OrderBy

  /** How `update_project` ends: it commits, or the UNIQUE constraint on
      `name` raises `sqlite3.IntegrityError`, which the function does not catch. */
  datatype UpdateOutcome = Committed | IntegrityError

  class Database {
    var projects: seq<Project>
    var artifacts: seq<Artifact>
    var projectSeq: nat
    var artifactSeq: nat

    /** The schema's constraints: primary keys issued by AUTOINCREMENT and the
        UNIQUE name. The foreign key is not an invariant: `save_artifact`
        opens its connection without `PRAGMA foreign_keys = ON`. */
    ghost predicate Valid()
      reads this
    {
      && DistinctProjectIds(projects) && ProjectIdsUpTo(projects, projectSeq)
      && UniqueNames(projects)
      && DistinctArtifactIds(artifacts) && ArtifactIdsUpTo(artifacts, artifactSeq)
    }

    /** `init_db` on a database file that has no tables yet. */
    constructor InitDb()
      ensures Valid()
      ensures projects == [] && artifacts == []
      ensures projectSeq == 0 && artifactSeq == 0
    {
      projects, artifacts := [], [];
      projectSeq, artifactSeq := 0, 0;
    }

    /** `get_all_projects`: every project, newest first. */
    function GetAllProjects(): seq<Project>
      reads this
    {
      ProjectListing(projects)
    }

    /** `create_project`: inserts a row, or returns false when the UNIQUE
        constraint rejects the name; a rejected insert changes nothing, not
        even the AUTOINCREMENT counter. */
    method CreateProject(name: string, description: string, now: nat) returns (ok: bool)
      requires Valid()
      modifies this
      ensures Valid()
      ensures ok <==> !NameTaken(old(projects), name)
      ensures ok ==> projects == old(projects) + [Project(old(projectSeq) + 1, name, description, now)]
      ensures ok ==> projectSeq == old(projectSeq) + 1
      ensures !ok ==> projects == old(projects) && projectSeq == old(projectSeq)
      ensures artifacts == old(artifacts) && artifactSeq == old(artifactSeq)
    {
      if NameTaken(projects, name) {
        return false;
      }
      var id := projectSeq + 1;
      projects := projects + [Project(id, name, description, now)];
      projectSeq := id;
      ok := true;
    }

    /** `update_project`: sets name and description of the row with that id.
        An id no row has matches nothing and commits; a name another row
        holds raises IntegrityError and nothing changes. */
    method UpdateProject(id: int, name: string, description: string) returns (outcome: UpdateOutcome)
      requires Valid()
      modifies this
      ensures Valid()
      ensures outcome == IntegrityError <==>
              HasProject(old(projects), id) && NameHeldByOther(old(projects), id, name)
      ensures outcome == IntegrityError ==> projects == old(projects)
      ensures outcome == Committed ==>
              && |projects| == |old(projects)|
              && forall i :: 0 <= i < |projects| ==>
                   projects[i] == if old(projects)[i].id == id
                                  then old(projects)[i].(name := name, description := description)
                                  else old(projects)[i]
      ensures artifacts == old(artifacts)
      ensures projectSeq == old(projectSeq) && artifactSeq == old(artifactSeq)
    {
      if !HasProject(projects, id) {
        return Committed;
      }
      if NameHeldByOther(projects, id, name) {
        return IntegrityError;
      }
      var k :| 0 <= k < |projects| && projects[k].id == id;
      projects := projects[k := projects[k].(name := name, description := description)];
      outcome := Committed;
    }

    /** `delete_project`: with foreign keys on, deleting the project row
        cascades to every artifact whose `project_id` is that id. The cascade
        fires only for a deleted row: when no project has the id, nothing is
        deleted, not even artifacts that carry it. */
    method DeleteProject(id: int)
      requires Valid()
      modifies this
      ensures Valid()
      ensures HasProject(old(projects), id) ==>
              && projects == WithoutProject(old(projects), id)
              && artifacts == WithoutOwnedBy(old(artifacts), id)
      ensures !HasProject(old(projects), id) ==>
              projects == old(projects) && artifacts == old(artifacts)
      ensures projectSeq == old(projectSeq) && artifactSeq == old(artifactSeq)
    {
      if HasProject(projects, id) {
        WithoutProjectKeepsKeys(projects, id, projectSeq);
        WithoutOwnedByKeepsKeys(artifacts, id, artifactSeq);
        projects := WithoutProject(projects, id);
        artifacts := WithoutOwnedBy(artifacts, id);
      }
    }

    /** `save_artifact`: appends one row. Its connection never enables
        foreign keys, so any `project_id` is accepted. No method changes an
        existing artifact row. */
    method SaveArtifact(projectId: int, stage: string, kind: string, content: string, now: nat)
      requires Valid()
      modifies this
      ensures Valid()
      ensures artifacts == old(artifacts) + [Artifact(old(artifactSeq) + 1, projectId, stage, kind, content, now)]
      ensures artifactSeq == old(artifactSeq) + 1
      ensures projects == old(projects) && projectSeq == old(projectSeq)
    {
      var id := artifactSeq + 1;
      artifacts := artifacts + [Artifact(id, projectId, stage, kind, content, now)];
      artifactSeq := id;
    }

    /** `get_artifacts_for_project`: content and time of every artifact of
        that project and type, newest first. */
    function GetArtifactsForProject(projectId: int, kind: string): seq<ArtifactRow>
      reads this
    {
      ArtifactListing(artifacts, projectId, kind)
    }
  }

  /** Creating a project twice under one name: the second call reports the
      duplicate and the listing still holds the one row. */
  method DuplicateNameScenario() returns (first: bool, second: bool, listed: seq<Project>)
    ensures first && !second
    ensures listed == [Project(1, "Churn Model", "desc", 0)]
  {
    var db := new Database.InitDb();
    first := db.CreateProject("Churn Model", "desc", 0);
    second := db.CreateProject("Churn Model", "other desc", 1);
    listed := db.GetAllProjects();
    assert |multiset(listed)| == 1;
    assert listed[0] in multiset(listed);
  }

  /** Two revisions of one document type: the listing shows the later draft
      first, then the earlier one. */
  method RevisionScenario() returns (listed: seq<ArtifactRow>)
    ensures listed == [ArtifactRow("draft v2", 2), ArtifactRow("draft v1", 1)]
  {
    var db := new Database.InitDb();
    var ok := db.CreateProject("Churn Model", "desc", 0);
    db.SaveArtifact(1, "REQUIREMENT", "PROBLEM_DEF", "draft v1", 1);
    db.SaveArtifact(1, "REQUIREMENT", "PROBLEM_DEF", "draft v2", 2);
    assert [] + [db.artifacts[0]] + [db.artifacts[1]] == db.artifacts;
    TwoSavesListNewestFirst([], db.artifacts[0], db.artifacts[1], 1, "PROBLEM_DEF");
    listed := db.GetArtifactsForProject(1, "PROBLEM_DEF");
  }

  /** Deleting a project with three artifacts of three types: neither the
      project nor any of its artifacts is listed afterwards. */
  method CascadeScenario() returns (projects: seq<Project>, problem: seq<ArtifactRow>,
                                    design: seq<ArtifactRow>, tests: seq<ArtifactRow>)
    ensures projects == []
    ensures problem == [] && design == [] && tests == []
  {
    var db := new Database.InitDb();
    var ok := db.CreateProject("Churn Model", "desc", 0);
    db.SaveArtifact(1, "REQUIREMENT", "PROBLEM_DEF", "draft v1", 1);
    db.SaveArtifact(1, "DESIGN", "MODEL_DESIGN", "design", 2);
    db.SaveArtifact(1, "VERIFICATION", "TEST_CASE", "cases", 3);
    assert db.projects[0].id == 1;
    ghost var before := db.artifacts;
    db.DeleteProject(1);
    projects := db.GetAllProjects();
    CascadeClearsListing(before, 1, "PROBLEM_DEF");
    CascadeClearsListing(before, 1, "MODEL_DESIGN");
    CascadeClearsListing(before, 1, "TEST_CASE");
    problem := db.GetArtifactsForProject(1, "PROBLEM_DEF");
    design := db.GetArtifactsForProject(1, "MODEL_DESIGN");
    tests := db.GetArtifactsForProject(1, "TEST_CASE");
  }
}
