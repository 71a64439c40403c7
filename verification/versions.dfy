/** The version routes: appending a version to a project's history and
    listing that history newest first.
 */
module Versions {
  import opened Base
  import opened Models
  import Ordering

  /** The Version a request body becomes: owned by `project`, numbered `num`,
      column defaults filled in at time `now`. */
  function VersionFromInput(input: VersionInput, project: Id, num: int, now: Time): (v: Version)
    ensures v.projectId == project && v.versionNum == num
    ensures v.content == input.content && v.negativePrompt == input.negativePrompt
    ensures v.changelog == input.changelog
    ensures input.parameters.None? ==> v.parameters == map[]
    ensures input.parameters.Some? ==> v.parameters == input.parameters.value
    ensures input.createdAt.None? ==> v.createdAt == now
    ensures input.createdAt.Some? ==> v.createdAt == input.createdAt.value
  {
    Version(project, num, input.content, input.negativePrompt, input.parameters.GetOr(map[]),
            input.changelog, input.createdAt.GetOr(now))
  }

  /** POST /api/projects/{id}/versions: a new version of the project, numbered
      one above the count of its existing versions, and the project's
      `updated_at` set to now; fails when the project is absent. */
  function CreateVersion(s: Store, project: Id, input: VersionInput, now: Time): (r: Result<(Store, Id)>)
    ensures r.Err? <==> project !in s.projects
    ensures r.Err? ==> r.error == NotFound
    ensures r.Ok? ==>
      var (t, id) := r.value;
      && id !in s.versions
      && t.versions.Keys == s.versions.Keys + {id}
      && t.versions[id] == VersionFromInput(input, project, |VersionsOf(s.versions, project)| + 1, now)
      && (forall v :: v in s.versions ==> t.versions[v] == s.versions[v])
      && t.projects.Keys == s.projects.Keys
      && t.projects[project] == s.projects[project].(updatedAt := now)
      && (forall p :: p in s.projects && p != project ==> t.projects[p] == s.projects[p])
      && t.categories == s.categories
  {
    if project !in s.projects then Err(NotFound)
    else
      var num := |VersionsOf(s.versions, project)| + 1;
      var id := NextId(s.versions);
      var p := s.projects[project].(updatedAt := now);
      Ok((Store(s.categories, s.projects[project := p],
                s.versions[id := VersionFromInput(input, project, num, now)]), id))
  }

  /** GET /api/projects/{id}/versions: the project's versions, exactly once
      each, highest number first. When the history is numbered 1..n, as every
      route keeps it, the numbers listed are n, n-1, ..., 1. */
  method ListVersions(s: Store, project: Id) returns (ids: seq<Id>)
    ensures forall v :: v in ids <==> v in VersionsOf(s.versions, project)
    ensures forall i :: 0 <= i < |ids| ==> ids[i] in s.versions
    ensures Ordering.Distinct(ids)
    ensures forall i, j :: 0 <= i < j < |ids| ==> s.versions[ids[i]].versionNum >= s.versions[ids[j]].versionNum
    ensures |ids| == |VersionsOf(s.versions, project)|
    ensures DenselyNumbered(s.versions, project) ==>
              forall i :: 0 <= i < |ids| ==> s.versions[ids[i]].versionNum == |ids| - i
  {
    var versions := s.versions;
    var mine := VersionsOf(versions, project);
    var key: int -> int := v => if v in versions then -versions[v].versionNum else 0;
    ids := Ordering.SortBy(mine, key);
    forall i, j | 0 <= i < j < |ids|
      ensures ids[i] in versions && ids[j] in versions
      ensures versions[ids[i]].versionNum >= versions[ids[j]].versionNum
    {
      assert ids[i] in mine && ids[j] in mine;
      assert key(ids[i]) <= key(ids[j]);
    }
    if DenselyNumbered(versions, project) {
      DenseListingCountsDown(versions, project, ids);
    }
  }

  /** The numbers the listed versions carry, in listing order. */
  function NumbersAlong(versions: map<Id, Version>, ids: seq<Id>): (nums: seq<int>)
    requires forall i :: 0 <= i < |ids| ==> ids[i] in versions
    ensures |nums| == |ids|
    ensures forall i :: 0 <= i < |ids| ==> nums[i] == versions[ids[i]].versionNum
  {
    if ids == [] then [] else [versions[ids[0]].versionNum] + NumbersAlong(versions, ids[1..])
  }

  /** A listing of a history numbered 1..n, each version once and highest
      number first, carries exactly the numbers n, n-1, ..., 1. */
  lemma DenseListingCountsDown(versions: map<Id, Version>, project: Id, ids: seq<Id>)
    requires DenselyNumbered(versions, project)
    requires forall v :: v in ids <==> v in VersionsOf(versions, project)
    requires Ordering.Distinct(ids) && |ids| == |VersionsOf(versions, project)|
    requires forall i :: 0 <= i < |ids| ==> ids[i] in versions
    requires forall i, j :: 0 <= i < j < |ids| ==> versions[ids[i]].versionNum >= versions[ids[j]].versionNum
    ensures forall i :: 0 <= i < |ids| ==> versions[ids[i]].versionNum == |ids| - i
  {
    var mine := VersionsOf(versions, project);
    var nums := NumbersAlong(versions, ids);
    forall i | 0 <= i < |nums|
      ensures ids[i] in mine && 1 <= nums[i] <= |nums|
    {
      assert ids[i] in ids;
    }
    forall i, j | 0 <= i < j < |nums|
      ensures nums[i] > nums[j]
    {
      assert ids[i] in mine && ids[j] in mine && ids[i] != ids[j];
    }
    Ordering.TightDescending(nums);
  }

  /** The numbers 1..n. */
  function OneTo(n: nat): (r: set<int>)
    ensures forall k :: k in r <==> 1 <= k <= n
    ensures |r| == n
  {
    if n == 0 then {} else OneTo(n - 1) + {n}
  }

  /** The numbers the versions of `project` carry. */
  function NumbersOf(versions: map<Id, Version>, project: Id): set<int> {
    set v | v in VersionsOf(versions, project) :: versions[v].versionNum
  }

  /** In a history numbered as the invariant demands, the numbers are
      exactly 1..n, n being the number of versions. */
  lemma NumbersAreOneToN(versions: map<Id, Version>, project: Id)
    requires DenselyNumbered(versions, project)
    ensures NumbersOf(versions, project) == OneTo(|VersionsOf(versions, project)|)
  {
    var mine := VersionsOf(versions, project);
    var nums := NumbersOf(versions, project);
    InjectiveImageSize(versions, mine);
    assert nums <= OneTo(|mine|);
    SubsetOfSameSize(nums, OneTo(|mine|));
  }

  /** Distinct versions with distinct numbers carry as many numbers as there are versions. */
  lemma {:induction false} InjectiveImageSize(versions: map<Id, Version>, vs: set<Id>)
    requires vs <= versions.Keys
    requires forall v, w :: v in vs && w in vs && versions[v].versionNum == versions[w].versionNum ==> v == w
    ensures |set v | v in vs :: versions[v].versionNum| == |vs|
    decreases |vs|
  {
    if vs != {} {
      Ordering.HasMember(vs);
      var v :| v in vs;
      var rest := vs - {v};
      InjectiveImageSize(versions, rest);
      var image := set w | w in vs :: versions[w].versionNum;
      var restImage := set w | w in rest :: versions[w].versionNum;
      assert image == restImage + {versions[v].versionNum};
      assert versions[v].versionNum !in restImage;
    }
  }

  /** A subset as large as the whole set is the whole set. */
  lemma SubsetOfSameSize(a: set<int>, b: set<int>)
    requires a <= b && |a| == |b|
    ensures a == b
  {
    var rest := b - a;
    assert b == a + rest;
    assert a * rest == {};
    assert |rest| == 0;
  }

  /** A project without history gets version 1 on the first append and
      version 2 on the second. */
  lemma FirstTwoVersions(s: Store, project: Id, a: VersionInput, b: VersionInput, t1: Time, t2: Time)
    requires project in s.projects && VersionsOf(s.versions, project) == {}
    ensures var (s1, v1) := CreateVersion(s, project, a, t1).value;
            var (s2, v2) := CreateVersion(s1, project, b, t2).value;
            s1.versions[v1].versionNum == 1 && s2.versions[v2].versionNum == 2
  {
    var (s1, v1) := CreateVersion(s, project, a, t1).value;
    assert VersionsOf(s1.versions, project) == {v1};
  }

  /** Adding a version numbered one above the count of its project's
      versions keeps every project's history numbered 1..n. */
  lemma AppendKeepsNumbering(versions: map<Id, Version>, id: Id, v: Version, p: Id)
    requires id !in versions
    requires v.versionNum == |VersionsOf(versions, v.projectId)| + 1
    requires DenselyNumbered(versions, p)
    ensures DenselyNumbered(versions[id := v], p)
  {
    var after := versions[id := v];
    if p == v.projectId {
      assert VersionsOf(after, p) == VersionsOf(versions, p) + {id};
    } else {
      assert VersionsOf(after, p) == VersionsOf(versions, p);
    }
  }

  /** Appending keeps the store coherent; in particular the project's numbers
      go from 1..n to 1..n+1 and every other project's stay as they were. */
  lemma CreateVersionKeepsCoherent(s: Store, project: Id, input: VersionInput, now: Time)
    requires Coherent(s) && CreateVersion(s, project, input, now).Ok?
    ensures Coherent(CreateVersion(s, project, input, now).value.0)
  {
    var (t, id) := CreateVersion(s, project, input, now).value;
    assert t.versions == s.versions[id := t.versions[id]];
    forall p
      ensures DenselyNumbered(t.versions, p)
    {
      AppendKeepsNumbering(s.versions, id, t.versions[id], p);
    }
  }

  lemma CreateVersionKeepsValid(s: Store, project: Id, input: VersionInput, now: Time)
    requires Valid(s) && CreateVersion(s, project, input, now).Ok?
    ensures Valid(CreateVersion(s, project, input, now).value.0)
  {
    CreateVersionKeepsCoherent(s, project, input, now);
  }
}
