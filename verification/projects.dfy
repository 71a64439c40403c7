/** The project routes: filtered listing, read, create, update, favourite
    toggle and delete with its cascade to the project's versions.
 */
module Projects {
  import opened Base
  import opened Models
  import Ordering
  import Like

  /** A category reference a project may carry: none, or a live category. */
  predicate CategoryRefOk(cats: map<Id, Category>, ref: Option<Id>) {
    ref.None? || ref.value in cats
  }

  // ------------------------------------------------------------------ listing

  /** The three optional filters of GET /api/projects. */
  predicate Selected(p: Project, categoryId: Option<Id>, search: Option<string>, isFavorite: Option<bool>) {
    // a category filter applies only when truthy: neither absent nor 0
    && (categoryId.None? || categoryId.value == 0 || p.categoryId == categoryId)
    // the favourite filter applies whenever it is given, `false` included
    && (isFavorite.None? || p.isFavorite == isFavorite.value)
    // a non-empty search must match the name or, when present, the description
    && (search.None? || search.value == []
        || Like.Contains(p.name, search.value)
        || (p.description.Some? && Like.Contains(p.description.value, search.value)))
  }

  /** GET /api/projects: every project the filters select, exactly once,
      most recently updated first. */
  method ListProjects(s: Store, categoryId: Option<Id>, search: Option<string>, isFavorite: Option<bool>)
    returns (ids: seq<Id>)
    ensures forall p :: p in ids <==> p in s.projects && Selected(s.projects[p], categoryId, search, isFavorite)
    ensures forall i :: 0 <= i < |ids| ==> ids[i] in s.projects
    ensures Ordering.Distinct(ids)
    ensures forall i, j :: 0 <= i < j < |ids| ==> s.projects[ids[i]].updatedAt >= s.projects[ids[j]].updatedAt
  {
    var projects := s.projects;
    var chosen := set p | p in projects && Selected(projects[p], categoryId, search, isFavorite);
    var key: int -> int := p => if p in projects then -(projects[p].updatedAt as int) else 0;
    ids := Ordering.SortBy(chosen, key);
    forall i, j | 0 <= i < j < |ids|
      ensures ids[i] in projects && ids[j] in projects
      ensures projects[ids[i]].updatedAt >= projects[ids[j]].updatedAt
    {
      assert ids[i] in chosen && ids[j] in chosen;
      assert key(ids[i]) <= key(ids[j]);
    }
  }

  /** Without filters (category 0 counting as none, and an empty search too)
      the listing selects every project. */
  lemma NoFilterSelectsAll(p: Project, categoryId: Option<Id>, search: Option<string>)
    requires categoryId.None? || categoryId == Some(0)
    requires search.None? || search == Some([])
    ensures Selected(p, categoryId, search, None)
  {
  }

  /** A category filter other than 0 selects exactly the projects in that category. */
  lemma CategoryFilter(p: Project, c: Id)
    requires c != 0
    ensures Selected(p, Some(c), None, None) <==> p.categoryId == Some(c)
  {
  }

  /** A favourite filter selects on the flag whether it is `true` or `false`. */
  lemma FavoriteFilter(p: Project, b: bool)
    ensures Selected(p, None, None, Some(b)) <==> p.isFavorite == b
  {
  }

  /** A search on a project without description looks at the name alone:
      the NULL description makes its half of the disjunction fail. */
  lemma SearchWithoutDescription(p: Project, needle: string)
    requires needle != [] && p.description.None?
    ensures Selected(p, None, Some(needle), None) <==> Like.Contains(p.name, needle)
  {
  }

  /** A search without wildcards selects exactly the projects whose name or
      description contains it, ignoring the case of ASCII letters. */
  lemma LiteralSearch(p: Project, needle: string)
    requires needle != [] && Like.Literal(needle)
    ensures Selected(p, None, Some(needle), None) <==>
              Like.FoldedSubstring(p.name, needle)
              || (p.description.Some? && Like.FoldedSubstring(p.description.value, needle))
  {
    Like.ContainsLiteral(p.name, needle);
    if p.description.Some? {
      Like.ContainsLiteral(p.description.value, needle);
    }
  }

  // --------------------------------------------------------------------- read

  /** GET /api/projects/{id}. */
  function ReadProject(s: Store, id: Id): (r: Result<Project>)
    ensures r.Ok? <==> id in s.projects
    ensures r.Ok? ==> r.value == s.projects[id]
    ensures r.Err? ==> r.error == NotFound
  {
    if id in s.projects then Ok(s.projects[id]) else Err(NotFound)
  }

  // ------------------------------------------------------------------- create

  /** POST /api/projects as written: the body, defaults filled in and
      `updated_at` set to now, stored under a fresh key, whatever category it names. */
  function CreateProjectAsWritten(s: Store, input: ProjectInput, now: Time): (r: (Store, Id))
    ensures r.1 !in s.projects
    ensures r.0.projects.Keys == s.projects.Keys + {r.1}
    ensures r.0.projects[r.1] == ProjectFromInput(input, now)
    ensures forall p :: p in s.projects ==> r.0.projects[p] == s.projects[p]
    ensures r.0.categories == s.categories && r.0.versions == s.versions
  {
    var id := NextId(s.projects);
    (s.(projects := s.projects[id := ProjectFromInput(input, now)]), id)
  }

  /** The source stores a project naming a category that does not exist. */
  lemma CreateProjectAsWrittenDangles()
    ensures var input := ProjectInput("p", None, None, Some(7), None, None, None);
            Valid(EmptyStore) && !Valid(CreateProjectAsWritten(EmptyStore, input, 0).0)
  {
    var input := ProjectInput("p", None, None, Some(7), None, None, None);
    var (t, id) := CreateProjectAsWritten(EmptyStore, input, 0);
    assert t.projects[id].categoryId == Some(7) && 7 !in t.categories;
  }

  /** POST /api/projects with the foreign key enforced: as written, except
      that a body naming no live category is refused. */
  function CreateProject(s: Store, input: ProjectInput, now: Time): (r: Result<(Store, Id)>)
    ensures r.Err? <==> !CategoryRefOk(s.categories, input.categoryId)
    ensures r.Err? ==> r.error == UnknownCategory
    ensures r.Ok? ==> r.value == CreateProjectAsWritten(s, input, now)
  {
    if CategoryRefOk(s.categories, input.categoryId) then Ok(CreateProjectAsWritten(s, input, now))
    else Err(UnknownCategory)
  }

  // ------------------------------------------------------------------- update

  /** PUT /api/projects/{id} as written: overwrite exactly name, description,
      tags and category from the body (omitted ones take their defaults) and
      set `updated_at` to now, whatever category the body names. */
  function UpdateProjectAsWritten(s: Store, id: Id, input: ProjectInput, now: Time): (r: Result<Store>)
    ensures r.Err? <==> id !in s.projects
    ensures r.Err? ==> r.error == NotFound
    ensures r.Ok? ==> r.value.projects.Keys == s.projects.Keys
    ensures r.Ok? ==>
      var (before, after) := (s.projects[id], r.value.projects[id]);
      && after.name == input.name && after.description == input.description
      && after.tags == input.tags.GetOr([]) && after.categoryId == input.categoryId
      && after.updatedAt == now
      && after.isFavorite == before.isFavorite && after.createdAt == before.createdAt
      && after.kind == before.kind
      && (forall p :: p in s.projects && p != id ==> r.value.projects[p] == s.projects[p])
      && r.value.categories == s.categories && r.value.versions == s.versions
  {
    if id !in s.projects then Err(NotFound)
    else
      var p := s.projects[id].(
        name := input.name, description := input.description,
        tags := input.tags.GetOr([]), categoryId := input.categoryId, updatedAt := now);
      Ok(s.(projects := s.projects[id := p]))
  }

  /** The source lets an update point a project at a category that does not exist. */
  lemma UpdateProjectAsWrittenDangles()
    ensures var s := CreateProjectAsWritten(EmptyStore, ProjectInput("p", None, None, None, None, None, None), 0);
            var input := ProjectInput("p", None, None, Some(7), None, None, None);
            Valid(s.0) && !Valid(UpdateProjectAsWritten(s.0, s.1, input, 1).value)
  {
    var (s, id) := CreateProjectAsWritten(EmptyStore, ProjectInput("p", None, None, None, None, None, None), 0);
    assert Valid(s);
    var t := UpdateProjectAsWritten(s, id, ProjectInput("p", None, None, Some(7), None, None, None), 1).value;
    assert t.projects[id].categoryId == Some(7) && 7 !in t.categories;
  }

  /** PUT /api/projects/{id} with the foreign key enforced: as written, except
      that a body naming no live category is refused. */
  function UpdateProject(s: Store, id: Id, input: ProjectInput, now: Time): (r: Result<Store>)
    ensures id !in s.projects ==> r == Err(NotFound)
    ensures id in s.projects && !CategoryRefOk(s.categories, input.categoryId) ==> r == Err(UnknownCategory)
    ensures r.Ok? <==> id in s.projects && CategoryRefOk(s.categories, input.categoryId)
    ensures r.Ok? ==> r == UpdateProjectAsWritten(s, id, input, now)
  {
    if id !in s.projects then Err(NotFound)
    else if !CategoryRefOk(s.categories, input.categoryId) then Err(UnknownCategory)
    else UpdateProjectAsWritten(s, id, input, now)
  }

  // ---------------------------------------------------------------- favourite

  /** POST /api/projects/{id}/favorite: flip the favourite flag and nothing
      else, not even `updated_at`. */
  function ToggleFavorite(s: Store, id: Id): (r: Result<Store>)
    ensures r.Err? <==> id !in s.projects
    ensures r.Err? ==> r.error == NotFound
    ensures r.Ok? ==>
      && r.value.projects.Keys == s.projects.Keys
      && r.value.projects[id].isFavorite == !s.projects[id].isFavorite
      && r.value.projects[id].(isFavorite := s.projects[id].isFavorite) == s.projects[id]
      && (forall p :: p in s.projects && p != id ==> r.value.projects[p] == s.projects[p])
      && r.value.categories == s.categories && r.value.versions == s.versions
  {
    if id !in s.projects then Err(NotFound)
    else
      var p := s.projects[id];
      Ok(s.(projects := s.projects[id := p.(isFavorite := !p.isFavorite)]))
  }

  /** Toggling twice gives back the store toggled from. */
  lemma ToggleTwiceRestores(s: Store, id: Id)
    requires id in s.projects
    ensures ToggleFavorite(ToggleFavorite(s, id).value, id) == Ok(s)
  {
    var t := ToggleFavorite(s, id).value;
    var u := ToggleFavorite(t, id).value;
    assert u.projects == s.projects;
  }

  // ------------------------------------------------------------------- delete

  /** DELETE /api/projects/{id}: remove the project and, by the cascade on
      its `versions` relationship, exactly its versions. */
  function DeleteProject(s: Store, id: Id): (r: Result<Store>)
    ensures r.Err? <==> id !in s.projects
    ensures r.Err? ==> r.error == NotFound
    ensures r.Ok? ==>
      var t := r.value;
      && t.projects.Keys == s.projects.Keys - {id}
      && (forall p :: p in t.projects ==> t.projects[p] == s.projects[p])
      && (forall v :: v in t.versions <==> v in s.versions && s.versions[v].projectId != id)
      && (forall v :: v in t.versions ==> t.versions[v] == s.versions[v])
      && t.categories == s.categories
  {
    if id !in s.projects then Err(NotFound)
    else
      var versions := map v | v in s.versions && s.versions[v].projectId != id :: s.versions[v];
      Ok(Store(s.categories, s.projects - {id}, versions))
  }

  // --------------------------------------------------------------- invariant

  /** The create as written keeps the store coherent, whatever category the body names. */
  lemma CreateProjectAsWrittenKeepsCoherent(s: Store, input: ProjectInput, now: Time)
    requires Coherent(s)
    ensures Coherent(CreateProjectAsWritten(s, input, now).0)
  {
  }

  lemma CreateProjectKeepsValid(s: Store, input: ProjectInput, now: Time)
    requires Valid(s) && CreateProject(s, input, now).Ok?
    ensures Valid(CreateProject(s, input, now).value.0)
  {
  }

  /** The update as written keeps the store coherent, whatever category the body names. */
  lemma UpdateProjectAsWrittenKeepsCoherent(s: Store, id: Id, input: ProjectInput, now: Time)
    requires Coherent(s) && UpdateProjectAsWritten(s, id, input, now).Ok?
    ensures Coherent(UpdateProjectAsWritten(s, id, input, now).value)
  {
  }

  lemma UpdateProjectKeepsValid(s: Store, id: Id, input: ProjectInput, now: Time)
    requires Valid(s) && UpdateProject(s, id, input, now).Ok?
    ensures Valid(UpdateProject(s, id, input, now).value)
  {
  }

  lemma ToggleFavoriteKeepsCoherent(s: Store, id: Id)
    requires Coherent(s) && ToggleFavorite(s, id).Ok?
    ensures Coherent(ToggleFavorite(s, id).value)
  {
  }

  lemma ToggleFavoriteKeepsValid(s: Store, id: Id)
    requires Valid(s) && ToggleFavorite(s, id).Ok?
    ensures Valid(ToggleFavorite(s, id).value)
  {
  }

  /** Deleting a project takes its whole history with it and leaves every
      other project's history, numbering included, as it was. */
  lemma DeleteProjectKeepsCoherent(s: Store, id: Id)
    requires Coherent(s) && DeleteProject(s, id).Ok?
    ensures Coherent(DeleteProject(s, id).value)
  {
    var t := DeleteProject(s, id).value;
    forall p
      ensures DenselyNumbered(t.versions, p)
    {
      if p == id {
        assert VersionsOf(t.versions, p) == {};
      } else {
        assert VersionsOf(t.versions, p) == VersionsOf(s.versions, p);
        assert DenselyNumbered(s.versions, p);
      }
    }
  }

  lemma DeleteProjectKeepsValid(s: Store, id: Id)
    requires Valid(s) && DeleteProject(s, id).Ok?
    ensures Valid(DeleteProject(s, id).value)
  {
    DeleteProjectKeepsCoherent(s, id);
  }
}
