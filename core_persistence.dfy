/** The store of core/persistence.py. Its schema declares no UNIQUE name and
    a foreign key without a cascade, no connection enables foreign keys, and
    the module offers no update and no delete: both tables only grow. */
module CorePersistence {
  import opened Tables
  import OrderBy

  class Database {
    var projects: seq<Project>
    var artifacts: seq<Artifact>
    var projectSeq: nat
    var artifactSeq: nat

    /** Primary keys issued by AUTOINCREMENT; names may repeat. */
    ghost predicate Valid()
      reads this
    {
      && DistinctProjectIds(projects) && ProjectIdsUpTo(projects, projectSeq)
      && DistinctArtifactIds(artifacts) && ArtifactIdsUpTo(artifacts, artifactSeq)
    }

    /** `init_db` on a database file that has no tables yet. */
    constructor InitDb()
      ensures Valid()
      ensures projects == [] && artifacts == []
      ensures projectSeq == 0 && artifactSeq == 0
    {
      projects, artifacts := [], [];
      projectSeq, artifactSeq := 0, 0;
    }

    /** `create_project`: always inserts, whatever the name, and returns
        `cursor.lastrowid`, an id no project had before. Every row present
        before is still present and unchanged. */
    method CreateProject(name: string, description: string, now: nat) returns (id: nat)
      requires Valid()
      modifies this
      ensures Valid()
      ensures id == old(projectSeq) + 1 && projectSeq == id
      ensures forall p :: p in old(projects) ==> p.id != id
      ensures projects == old(projects) + [Project(id, name, description, now)]
      ensures artifacts == old(artifacts) && artifactSeq == old(artifactSeq)
    {
      id := projectSeq + 1;
      projects := projects + [Project(id, name, description, now)];
      projectSeq := id;
    }

    /** `get_all_projects`: every project, newest first. */
    function GetAllProjects(): seq<Project>
      reads this
    {
      ProjectListing(projects)
    }

    /** `save_artifact`: appends one row, accepting a `project_id` that no
        project has, since the declared foreign key is never enforced. */
    method SaveArtifact(projectId: int, stage: string, kind: string, content: string, now: nat)
      requires Valid()
      modifies this
      ensures Valid()
      ensures artifacts == old(artifacts) + [Artifact(old(artifactSeq) + 1, projectId, stage, kind, content, now)]
      ensures artifactSeq == old(artifactSeq) + 1
      ensures projects == old(projects) && projectSeq == old(projectSeq)
    {
      var id := artifactSeq + 1;
      artifacts := artifacts + [Artifact(id, projectId, stage, kind, content, now)];
      artifactSeq := id;
    }

    /** `get_artifacts_for_project`: content and time of every artifact of
        that project and type, newest first. */
    function GetArtifactsForProject(projectId: int, kind: string): seq<ArtifactRow>
      reads this
    {
      ArtifactListing(artifacts, projectId, kind)
    }
  }

  /** Two projects under one name: both inserts succeed, with fresh ids, and
      both rows are kept. */
  method DuplicateNamesScenario() returns (first: nat, second: nat)
    ensures first == 1 && second == 2
  {
    var db := new Database.InitDb();
    first := db.CreateProject("Churn Model", "desc", 0);
    second := db.CreateProject("Churn Model", "other desc", 1);
    assert db.projects == [Project(1, "Churn Model", "desc", 0), Project(2, "Churn Model", "other desc", 1)];
  }

  /** An artifact saved for a project id that does not exist is stored and
      listed like any other. */
  method OrphanArtifactScenario() returns (listed: seq<ArtifactRow>)
    ensures listed == [ArtifactRow("orphan", 5)]
  {
    var db := new Database.InitDb();
    db.SaveArtifact(42, "REQUIREMENT", "PROBLEM_DEF", "orphan", 5);
    assert !HasProject(db.projects, 42);
    listed := db.GetArtifactsForProject(42, "PROBLEM_DEF");
    AscendingListedNewestFirst(db.artifacts, 42, "PROBLEM_DEF");
  }
}
