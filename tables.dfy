/** The two tables both persistence modules keep in SQLite, as rows, and the
    two SELECT statements they share word for word. A `created_at` value is
    an abstract clock reading (`nat`) instead of an ISO-8601 string; comparing
    two readings stands for comparing the strings. */
module Tables {
  import OrderBy

  /** A row of `projects(id, name, description, created_at)`. */
  datatype Project = Project(id: nat, name: string, description: string, createdAt: nat)

  /** A row of `artifacts(id, project_id, stage, type, content, created_at)`;
      the `type` column is called `kind` here. */
  datatype Artifact = Artifact(id: nat, projectId: int, stage: string, kind: string,
                               content: string, createdAt: nat)

  /** The two columns `get_artifacts_for_project` selects. */
  datatype ArtifactRow = ArtifactRow(content: string, createdAt: nat)

  function ProjectTime(p: Project): int { p.createdAt }
  function ArtifactTime(a: Artifact): int { a.createdAt }
  function RowTime(r: ArtifactRow): int { r.createdAt }

  function RowOf(a: Artifact): ArtifactRow { ArtifactRow(a.content, a.createdAt) }

  /** `SELECT content, created_at` applied to each row of `s`. */
  function Rows(s: seq<Artifact>): seq<ArtifactRow> {
    seq(|s|, i requires 0 <= i < |s| => RowOf(s[i]))
  }

  /** The projection works row by row, so it distributes over appending. */
  lemma RowsAppend(a: seq<Artifact>, b: seq<Artifact>)
    ensures Rows(a + b) == Rows(a) + Rows(b)
  {
  }

  // Table invariants: the primary keys and the UNIQUE column.

  predicate DistinctProjectIds(ps: seq<Project>) {
    forall i, j :: 0 <= i < j < |ps| ==> ps[i].id != ps[j].id
  }

  predicate UniqueNames(ps: seq<Project>) {
    forall i, j :: 0 <= i < j < |ps| ==> ps[i].name != ps[j].name
  }

  /** Every id was issued by AUTOINCREMENT, whose counter stands at `last`. */
  predicate ProjectIdsUpTo(ps: seq<Project>, last: nat) {
    forall i :: 0 <= i < |ps| ==> 1 <= ps[i].id <= last
  }

  predicate DistinctArtifactIds(arts: seq<Artifact>) {
    forall i, j :: 0 <= i < j < |arts| ==> arts[i].id != arts[j].id
  }

  predicate ArtifactIdsUpTo(arts: seq<Artifact>, last: nat) {
    forall i :: 0 <= i < |arts| ==> 1 <= arts[i].id <= last
  }

  predicate HasProject(ps: seq<Project>, id: int) {
    exists p :: p in ps && p.id == id
  }

  predicate NameTaken(ps: seq<Project>, name: string) {
    exists p :: p in ps && p.name == name
  }

  /** Some project other than `id` is called `name`. */
  predicate NameHeldByOther(ps: seq<Project>, id: int, name: string) {
    exists p :: p in ps && p.id != id && p.name == name
  }

  // Filters: the WHERE clauses, keeping the table order.

  /** `DELETE FROM projects WHERE id = ?`: the rows that remain. */
  function WithoutProject(ps: seq<Project>, id: int): (r: seq<Project>)
    ensures forall p :: p in r <==> p in ps && p.id != id
  {
    if ps == [] then []
    else if ps[0].id == id then WithoutProject(ps[1..], id)
    else [ps[0]] + WithoutProject(ps[1..], id)
  }

  /** The cascade of that delete on `artifacts`: the rows that remain. */
  function WithoutOwnedBy(arts: seq<Artifact>, id: int): (r: seq<Artifact>)
    ensures forall a :: a in r <==> a in arts && a.projectId != id
  {
    if arts == [] then []
    else if arts[0].projectId == id then WithoutOwnedBy(arts[1..], id)
    else [arts[0]] + WithoutOwnedBy(arts[1..], id)
  }

  predicate Matches(a: Artifact, projectId: int, kind: string) {
    a.projectId == projectId && a.kind == kind
  }

  /** `WHERE project_id = ? AND type = ?`: every matching row, as often as
      it occurs, and no other. */
  function Matching(arts: seq<Artifact>, projectId: int, kind: string): seq<Artifact> {
    if arts == [] then []
    else if Matches(arts[0], projectId, kind) then [arts[0]] + Matching(arts[1..], projectId, kind)
    else Matching(arts[1..], projectId, kind)
  }

  /** The filter keeps every matching row as often as it occurs, and no other. */
  lemma {:induction false} MatchingCounts(arts: seq<Artifact>, projectId: int, kind: string)
    ensures forall a :: multiset(Matching(arts, projectId, kind))[a] ==
                        if Matches(a, projectId, kind) then multiset(arts)[a] else 0
  {
    if arts != [] {
      assert arts == [arts[0]] + arts[1..];
      MatchingCounts(arts[1..], projectId, kind);
    }
  }

  /** Every row the filter keeps is a matching row of the table. */
  lemma MatchingWithin(arts: seq<Artifact>, projectId: int, kind: string)
    ensures forall a :: a in Matching(arts, projectId, kind) ==> a in arts && Matches(a, projectId, kind)
  {
    MatchingCounts(arts, projectId, kind);
    forall a | a in Matching(arts, projectId, kind) ensures a in arts && Matches(a, projectId, kind) {
      assert a in multiset(Matching(arts, projectId, kind));
    }
  }

  // The two SELECT statements.

  /** `SELECT id, name, description, created_at FROM projects ORDER BY created_at DESC` */
  function ProjectListing(ps: seq<Project>): (r: seq<Project>)
    ensures OrderBy.SortedDesc(r, ProjectTime)
    ensures multiset(r) == multiset(ps)
  {
    OrderBy.SortDesc(ps, ProjectTime)
  }

  /** `SELECT content, created_at FROM artifacts WHERE project_id = ? AND type = ?
      ORDER BY created_at DESC` */
  function ArtifactListing(arts: seq<Artifact>, projectId: int, kind: string): (r: seq<ArtifactRow>)
    ensures OrderBy.SortedDesc(r, RowTime)
    ensures multiset(r) == multiset(Rows(Matching(arts, projectId, kind)))
  {
    OrderBy.SortDesc(Rows(Matching(arts, projectId, kind)), RowTime)
  }

  // Properties of the listings.

  /** The artifact listing shows the selected columns of exactly the matching rows. */
  lemma ListingMembers(arts: seq<Artifact>, projectId: int, kind: string, row: ArtifactRow)
    ensures row in ArtifactListing(arts, projectId, kind) <==>
            exists a :: a in arts && Matches(a, projectId, kind) && RowOf(a) == row
  {
    var m := Matching(arts, projectId, kind);
    MatchingCounts(arts, projectId, kind);
    var rows := Rows(m);
    assert row in ArtifactListing(arts, projectId, kind) <==> row in rows by {
      assert multiset(ArtifactListing(arts, projectId, kind)) == multiset(rows);
      assert row in ArtifactListing(arts, projectId, kind) <==> row in multiset(rows);
    }
    if row in rows {
      var i :| 0 <= i < |rows| && rows[i] == row;
      var a := m[i];
      assert a in multiset(m);
      assert a in arts && Matches(a, projectId, kind);
    }
    if a :| a in arts && Matches(a, projectId, kind) && RowOf(a) == row {
      assert a in multiset(m);
      var i :| 0 <= i < |m| && m[i] == a;
      assert rows[i] == row;
    }
  }

  /** A row with distinct ids occurs exactly once in its table. */
  lemma {:induction false} OccursOnce(ps: seq<Project>, p: Project)
    requires DistinctProjectIds(ps)
    requires p in ps
    ensures multiset(ps)[p] == 1
  {
    assert ps == [ps[0]] + ps[1..];
    if ps[0] == p {
      assert p !in ps[1..];
    } else {
      OccursOnce(ps[1..], p);
    }
  }

  /** `get_all_projects` lists each project exactly once. */
  lemma ProjectListedOnce(ps: seq<Project>, p: Project)
    requires DistinctProjectIds(ps)
    requires p in ps
    ensures multiset(ProjectListing(ps))[p] == 1
  {
    OccursOnce(ps, p);
  }

  /** Filtering a table keeps the timestamps ascending. */
  lemma {:induction false} MatchingKeepsAscending(arts: seq<Artifact>, projectId: int, kind: string)
    requires OrderBy.StrictlyAscending(arts, ArtifactTime)
    ensures OrderBy.StrictlyAscending(Matching(arts, projectId, kind), ArtifactTime)
  {
    if arts != [] {
      var tail := arts[1..];
      assert OrderBy.StrictlyAscending(tail, ArtifactTime);
      MatchingKeepsAscending(tail, projectId, kind);
      var m := Matching(tail, projectId, kind);
      MatchingWithin(tail, projectId, kind);
      forall j | 0 <= j < |m| ensures arts[0].createdAt < m[j].createdAt {
        assert m[j] in tail;
      }
    }
  }

  /** When artifacts were saved with strictly increasing timestamps, the
      listing is the matching rows newest first: the last saved comes first. */
  lemma AscendingListedNewestFirst(arts: seq<Artifact>, projectId: int, kind: string)
    requires OrderBy.StrictlyAscending(arts, ArtifactTime)
    ensures ArtifactListing(arts, projectId, kind) == OrderBy.Reversed(Rows(Matching(arts, projectId, kind)))
  {
    MatchingKeepsAscending(arts, projectId, kind);
    var rows := Rows(Matching(arts, projectId, kind));
    assert OrderBy.StrictlyAscending(rows, RowTime);
    OrderBy.AscendingSortsToReversed(rows, RowTime);
  }

  /** With strictly increasing timestamps the query has one admissible
      answer: any sequence that `ORDER BY created_at DESC` may return for the
      matching rows is the model's listing. */
  lemma AnyOrderIsListing(arts: seq<Artifact>, projectId: int, kind: string, r: seq<ArtifactRow>)
    requires OrderBy.StrictlyAscending(arts, ArtifactTime)
    requires OrderBy.SortedDesc(r, RowTime)
    requires multiset(r) == multiset(Rows(Matching(arts, projectId, kind)))
    ensures r == ArtifactListing(arts, projectId, kind)
  {
    MatchingKeepsAscending(arts, projectId, kind);
    var rows := Rows(Matching(arts, projectId, kind));
    assert OrderBy.StrictlyAscending(rows, RowTime);
    OrderBy.DescendingOrderUnique(rows, r, RowTime);
    AscendingListedNewestFirst(arts, projectId, kind);
  }

  /** Appending a row to the table appends it to the filter when it matches. */
  lemma {:induction false} MatchingAppend(arts: seq<Artifact>, a: Artifact, projectId: int, kind: string)
    ensures Matching(arts + [a], projectId, kind) ==
            Matching(arts, projectId, kind) + (if Matches(a, projectId, kind) then [a] else [])
  {
    if arts == [] {
      assert arts + [a] == [a];
      assert [a][1..] == [];
    } else {
      var whole := arts + [a];
      assert whole[0] == arts[0];
      assert whole[1..] == arts[1..] + [a];
      MatchingAppend(arts[1..], a, projectId, kind);
    }
  }

  /** Saving an artifact of another project or type leaves the rows a
      listing holds as they were (their order is fixed up to equal timestamps). */
  lemma SaveElsewhereKeepsListing(arts: seq<Artifact>, a: Artifact, projectId: int, kind: string)
    requires !Matches(a, projectId, kind)
    ensures multiset(ArtifactListing(arts + [a], projectId, kind)) == multiset(ArtifactListing(arts, projectId, kind))
  {
    MatchingAppend(arts, a, projectId, kind);
    var m := Matching(arts, projectId, kind);
    assert m + [] == m;
  }

  /** Saving never drops or alters a listed version: the listing gains the
      new row when it matches and is otherwise the same multiset. */
  lemma SaveKeepsHistory(arts: seq<Artifact>, a: Artifact, projectId: int, kind: string)
    ensures multiset(ArtifactListing(arts + [a], projectId, kind)) ==
            multiset(ArtifactListing(arts, projectId, kind)) +
            (if Matches(a, projectId, kind) then multiset{RowOf(a)} else multiset{})
  {
    MatchingAppend(arts, a, projectId, kind);
    var m := Matching(arts, projectId, kind);
    if Matches(a, projectId, kind) {
      RowsAppend(m, [a]);
      assert Rows([a]) == [RowOf(a)];
    } else {
      assert m + [] == m;
    }
  }

  /** An artifact saved later than every existing row heads its listing:
      it is the latest version of its type. */
  lemma SavedLatestComesFirst(arts: seq<Artifact>, a: Artifact)
    requires forall b :: b in arts ==> b.createdAt < a.createdAt
    ensures ArtifactListing(arts + [a], a.projectId, a.kind) != []
    ensures ArtifactListing(arts + [a], a.projectId, a.kind)[0] == RowOf(a)
  {
    var p, k := a.projectId, a.kind;
    var m := Matching(arts, p, k);
    assert Matching(arts + [a], p, k) == m + [a] by {
      MatchingAppend(arts, a, p, k);
    }
    var rows := Rows(m + [a]);
    RowsAppend(m, [a]);
    assert Rows([a]) == [RowOf(a)];
    assert rows == Rows(m) + [RowOf(a)];
    var listing := ArtifactListing(arts + [a], p, k);
    assert multiset(listing) == multiset(Rows(m) + [RowOf(a)]);
    EarlierRowsOlder(arts, a, m);
    OrderBy.LargestComesFirst(listing, Rows(m), RowOf(a), RowTime);
  }

  lemma EarlierRowsOlder(arts: seq<Artifact>, a: Artifact, m: seq<Artifact>)
    requires forall b :: b in arts ==> b.createdAt < a.createdAt
    requires m == Matching(arts, a.projectId, a.kind)
    ensures forall row :: row in Rows(m) ==> RowTime(row) < RowTime(RowOf(a))
  {
    MatchingWithin(arts, a.projectId, a.kind);
    forall row | row in Rows(m) ensures RowTime(row) < RowTime(RowOf(a)) {
      var i :| 0 <= i < |m| && Rows(m)[i] == row;
      assert m[i] in arts;
    }
  }

  /** Two revisions of a document that had none: the listing is exactly the
      later one, then the earlier one. */
  lemma TwoSavesListNewestFirst(arts: seq<Artifact>, first: Artifact, second: Artifact,
                                projectId: int, kind: string)
    requires Matching(arts, projectId, kind) == []
    requires Matches(first, projectId, kind) && Matches(second, projectId, kind)
    requires first.createdAt < second.createdAt
    ensures ArtifactListing(arts + [first] + [second], projectId, kind) == [RowOf(second), RowOf(first)]
  {
    MatchingTwoSaves(arts, first, second, projectId, kind);
    assert Rows([first, second]) == [RowOf(first), RowOf(second)];
    OrderBy.SortTwo(RowOf(first), RowOf(second), RowTime);
  }

  lemma MatchingTwoSaves(arts: seq<Artifact>, first: Artifact, second: Artifact,
                         projectId: int, kind: string)
    requires Matching(arts, projectId, kind) == []
    requires Matches(first, projectId, kind) && Matches(second, projectId, kind)
    ensures Matching(arts + [first] + [second], projectId, kind) == [first, second]
  {
    assert Matching(arts + [first], projectId, kind) == [first] by {
      MatchingAppend(arts, first, projectId, kind);
      assert [] + [first] == [first];
    }
    MatchingAppend(arts + [first], second, projectId, kind);
    assert [first] + [second] == [first, second];
  }

  /** After the cascade, no type of that project has any artifact left. */
  lemma CascadeClearsListing(arts: seq<Artifact>, id: int, kind: string)
    ensures ArtifactListing(WithoutOwnedBy(arts, id), id, kind) == []
  {
  }

  /** The cascade leaves the artifacts of every other project where they were. */
  lemma {:induction false} CascadeKeepsOthers(arts: seq<Artifact>, id: int, projectId: int, kind: string)
    requires projectId != id
    ensures Matching(WithoutOwnedBy(arts, id), projectId, kind) == Matching(arts, projectId, kind)
  {
    if arts != [] {
      CascadeKeepsOthers(arts[1..], id, projectId, kind);
    }
  }

  /** The cascade leaves the rows every other project lists as they were. */
  lemma CascadeKeepsOtherListings(arts: seq<Artifact>, id: int, projectId: int, kind: string)
    requires projectId != id
    ensures multiset(ArtifactListing(WithoutOwnedBy(arts, id), projectId, kind)) ==
            multiset(ArtifactListing(arts, projectId, kind))
  {
    CascadeKeepsOthers(arts, id, projectId, kind);
  }

  /** Deleting a present project removes exactly one row. */
  lemma {:induction false} DeleteRemovesOne(ps: seq<Project>, id: int)
    requires DistinctProjectIds(ps)
    requires HasProject(ps, id)
    ensures |WithoutProject(ps, id)| == |ps| - 1
  {
    assert ps[0] in ps;
    if ps[0].id == id {
      assert !HasProject(ps[1..], id);
      AbsentKeepsAll(ps[1..], id);
    } else {
      DeleteRemovesOne(ps[1..], id);
    }
  }

  lemma {:induction false} AbsentKeepsAll(ps: seq<Project>, id: int)
    requires !HasProject(ps, id)
    ensures WithoutProject(ps, id) == ps
  {
    if ps != [] {
      assert ps[0] in ps;
      AbsentKeepsAll(ps[1..], id);
      assert ps == [ps[0]] + ps[1..];
    }
  }

  /** The delete keeps the key and UNIQUE invariants of `projects`. */
  lemma {:induction false} WithoutProjectKeepsKeys(ps: seq<Project>, id: int, last: nat)
    requires DistinctProjectIds(ps) && UniqueNames(ps) && ProjectIdsUpTo(ps, last)
    ensures DistinctProjectIds(WithoutProject(ps, id))
    ensures UniqueNames(WithoutProject(ps, id))
    ensures ProjectIdsUpTo(WithoutProject(ps, id), last)
  {
    if ps != [] {
      var tail := ps[1..];
      WithoutProjectKeepsKeys(tail, id, last);
      if ps[0].id != id {
        var rest := WithoutProject(tail, id);
        forall q | q in rest ensures ps[0].id != q.id && ps[0].name != q.name && 1 <= q.id <= last {
          var k :| 0 <= k < |tail| && tail[k] == q;
          assert ps[k + 1] == q;
        }
        ConsKeys(ps[0], rest, last);
      }
    }
  }

  lemma ConsKeys(h: Project, t: seq<Project>, last: nat)
    requires DistinctProjectIds(t) && UniqueNames(t) && ProjectIdsUpTo(t, last)
    requires 1 <= h.id <= last
    requires forall q :: q in t ==> h.id != q.id && h.name != q.name
    ensures DistinctProjectIds([h] + t) && UniqueNames([h] + t) && ProjectIdsUpTo([h] + t, last)
  {
    var r := [h] + t;
    forall i, j | 0 <= i < j < |r| ensures r[i].id != r[j].id && r[i].name != r[j].name {
      if i == 0 {
        assert r[j] in t;
      } else {
        assert r[i] == t[i - 1] && r[j] == t[j - 1];
      }
    }
  }

  /** The cascade keeps the key invariant of `artifacts`. */
  lemma {:induction false} WithoutOwnedByKeepsKeys(arts: seq<Artifact>, id: int, last: nat)
    requires DistinctArtifactIds(arts) && ArtifactIdsUpTo(arts, last)
    ensures DistinctArtifactIds(WithoutOwnedBy(arts, id))
    ensures ArtifactIdsUpTo(WithoutOwnedBy(arts, id), last)
  {
    if arts != [] {
      var tail := arts[1..];
      WithoutOwnedByKeepsKeys(tail, id, last);
      var rest := WithoutOwnedBy(tail, id);
      if arts[0].projectId != id {
        forall j | 0 <= j < |rest| ensures arts[0].id != rest[j].id {
          assert rest[j] in tail;
        }
      }
    }
  }
}
