/** The application as a state machine: every state-changing route is one
    step on the store and a failed route leaves the store as it was.

    Two programs are modelled. `StepAsWritten` is the handlers as they are:
    the foreign key on `project.category_id` is never enforced, so a project
    may name a category that does not exist, and every reachable store is
    only `Coherent`. `Step` is the same program with that foreign key
    enforced, and every store it reaches is `Valid`.
 */
module App {
  import opened Base
  import opened Models
  import Categories
  import Projects
  import Versions

  /** A state-changing request. Reads (the listings and project lookup) change nothing. */
  datatype Op =
    | StartUp                                              // create_db_and_tables
    | NewCategory(category: CategoryInput)                 // POST /api/categories
    | EditCategory(id: Id, category: CategoryInput)        // PUT /api/categories/{id}
    | ReorderCategories(items: seq<Categories.ReorderItem>) // PUT /api/categories/reorder
    | RemoveCategory(id: Id)                               // DELETE /api/categories/{id}
    | NewProject(project: ProjectInput, now: Time)          // POST /api/projects
    | EditProject(id: Id, project: ProjectInput, now: Time) // PUT /api/projects/{id}
    | Favorite(id: Id)                                     // POST /api/projects/{id}/favorite
    | RemoveProject(id: Id)                                // DELETE /api/projects/{id}
    | NewVersion(id: Id, version: VersionInput, now: Time)  // POST /api/projects/{id}/versions

  /** The store a committed route leaves, or the old one when the route fails. */
  function Committed(s: Store, r: Result<Store>): (t: Store)
    ensures r.Err? ==> t == s
    ensures r.Ok? ==> t == r.value
  {
    if r.Ok? then r.value else s
  }

  /** A create's outcome without the new row's key. */
  function DropId(r: Result<(Store, Id)>): (q: Result<Store>)
    ensures q.Ok? <==> r.Ok?
    ensures r.Ok? ==> q.value == r.value.0
    ensures r.Err? ==> q.error == r.error
  {
    if r.Ok? then Ok(r.value.0) else Err(r.error)
  }

  /** The store after one request, with the foreign key on a project's
      category enforced. */
  function Step(s: Store, op: Op): Store {
    match op
    case StartUp => Categories.Seed(s)
    case NewCategory(input) =>
      Committed(s, DropId(Categories.CreateCategory(s, input)))
    case EditCategory(id, input) => Committed(s, Categories.UpdateCategory(s, id, input))
    case ReorderCategories(items) => Categories.Reorder(s, items)
    case RemoveCategory(id) => Committed(s, Categories.DeleteCategory(s, id))
    case NewProject(input, now) =>
      Committed(s, DropId(Projects.CreateProject(s, input, now)))
    case EditProject(id, input, now) => Committed(s, Projects.UpdateProject(s, id, input, now))
    case Favorite(id) => Committed(s, Projects.ToggleFavorite(s, id))
    case RemoveProject(id) => Committed(s, Projects.DeleteProject(s, id))
    case NewVersion(id, input, now) =>
      Committed(s, DropId(Versions.CreateVersion(s, id, input, now)))
  }

  /** The store after one request to the handlers as written: the project
      create and update store whatever category the body names. */
  function StepAsWritten(s: Store, op: Op): Store {
    match op
    case NewProject(input, now) => Projects.CreateProjectAsWritten(s, input, now).0
    case EditProject(id, input, now) => Committed(s, Projects.UpdateProjectAsWritten(s, id, input, now))
    case _ => Step(s, op)
  }

  /** The store after a sequence of requests, in order. */
  function Run(s: Store, ops: seq<Op>): Store
    decreases |ops|
  {
    if ops == [] then s else Run(Step(s, ops[0]), ops[1..])
  }

  /** The store after a sequence of requests to the handlers as written. */
  function RunAsWritten(s: Store, ops: seq<Op>): Store
    decreases |ops|
  {
    if ops == [] then s else RunAsWritten(StepAsWritten(s, ops[0]), ops[1..])
  }

  /** The request is a project create or update, of a live project, whose
      body names a category that does not exist. */
  predicate NamesDeadCategory(s: Store, op: Op) {
    match op
    case NewProject(input, _) => !Projects.CategoryRefOk(s.categories, input.categoryId)
    case EditProject(id, input, _) => id in s.projects && !Projects.CategoryRefOk(s.categories, input.categoryId)
    case _ => false
  }

  /** The two programs differ only where the enforced foreign key refuses a
      request: there the corrected program leaves the store as it was while
      the program as written stores a project naming a dead category, and
      everywhere else both take the same step. */
  lemma StepAgreesWithAsWritten(s: Store, op: Op)
    ensures NamesDeadCategory(s, op) ==> Step(s, op) == s
    ensures NamesDeadCategory(s, op) ==>
              !CategoryRefsLive(StepAsWritten(s, op).categories, StepAsWritten(s, op).projects)
    ensures !NamesDeadCategory(s, op) ==> Step(s, op) == StepAsWritten(s, op)
  {
    if NamesDeadCategory(s, op) {
      match op
      case NewProject(input, now) =>
        var (t, id) := Projects.CreateProjectAsWritten(s, input, now);
        assert t.projects[id].categoryId == input.categoryId;
      case EditProject(id, input, now) =>
        var t := Projects.UpdateProjectAsWritten(s, id, input, now).value;
        assert t.projects[id].categoryId == input.categoryId;
    }
  }

  /** Every request keeps the store valid. */
  lemma StepKeepsValid(s: Store, op: Op)
    requires Valid(s)
    ensures Valid(Step(s, op))
  {
    match op
    case StartUp => Categories.SeedKeepsValid(s);
    case NewCategory(input) =>
      if Categories.CreateCategory(s, input).Ok? {
        Categories.CreateCategoryKeepsValid(s, input);
      }
    case EditCategory(id, input) =>
      if Categories.UpdateCategory(s, id, input).Ok? {
        Categories.UpdateCategoryKeepsValid(s, id, input);
      }
    case ReorderCategories(items) => Categories.ReorderKeepsValid(s, items);
    case RemoveCategory(id) =>
      if Categories.DeleteCategory(s, id).Ok? {
        Categories.DeleteCategoryKeepsValid(s, id);
      }
    case NewProject(input, now) =>
      if Projects.CreateProject(s, input, now).Ok? {
        Projects.CreateProjectKeepsValid(s, input, now);
      }
    case EditProject(id, input, now) =>
      if Projects.UpdateProject(s, id, input, now).Ok? {
        Projects.UpdateProjectKeepsValid(s, id, input, now);
      }
    case Favorite(id) =>
      if Projects.ToggleFavorite(s, id).Ok? {
        Projects.ToggleFavoriteKeepsValid(s, id);
      }
    case RemoveProject(id) =>
      if Projects.DeleteProject(s, id).Ok? {
        Projects.DeleteProjectKeepsValid(s, id);
      }
    case NewVersion(id, input, now) =>
      if Versions.CreateVersion(s, id, input, now).Ok? {
        Versions.CreateVersionKeepsValid(s, id, input, now);
      }
  }

  /** Any sequence of requests keeps the store valid. */
  lemma {:induction false} RunKeepsValid(s: Store, ops: seq<Op>)
    requires Valid(s)
    ensures Valid(Run(s, ops))
    decreases |ops|
  {
    if ops != [] {
      StepKeepsValid(s, ops[0]);
      RunKeepsValid(Step(s, ops[0]), ops[1..]);
    }
  }

  /** Every store reachable from an empty database has live category and
      project references, unique category names and histories numbered 1..n. */
  lemma ReachableIsValid(ops: seq<Op>)
    ensures Valid(Run(EmptyStore, ops))
  {
    EmptyStoreValid();
    RunKeepsValid(EmptyStore, ops);
  }

  /** The version history of any reachable store is numbered exactly 1..n per project. */
  lemma ReachableNumbering(ops: seq<Op>, project: Id)
    ensures var s := Run(EmptyStore, ops);
            Versions.NumbersOf(s.versions, project) == Versions.OneTo(|VersionsOf(s.versions, project)|)
  {
    ReachableIsValid(ops);
    var s := Run(EmptyStore, ops);
    assert DenselyNumbered(s.versions, project);
    Versions.NumbersAreOneToN(s.versions, project);
  }

  // ------------------------------------------------------- the handlers as written

  /** Every request to the handlers as written keeps the store coherent. */
  lemma StepAsWrittenKeepsCoherent(s: Store, op: Op)
    requires Coherent(s)
    ensures Coherent(StepAsWritten(s, op))
  {
    match op
    case StartUp => Categories.SeedKeepsCoherent(s);
    case NewCategory(input) =>
      if Categories.CreateCategory(s, input).Ok? {
        Categories.CreateCategoryKeepsCoherent(s, input);
      }
    case EditCategory(id, input) =>
      if Categories.UpdateCategory(s, id, input).Ok? {
        Categories.UpdateCategoryKeepsCoherent(s, id, input);
      }
    case ReorderCategories(items) => Categories.ReorderKeepsCoherent(s, items);
    case RemoveCategory(id) =>
      if Categories.DeleteCategory(s, id).Ok? {
        Categories.DeleteCategoryKeepsCoherent(s, id);
      }
    case NewProject(input, now) => Projects.CreateProjectAsWrittenKeepsCoherent(s, input, now);
    case EditProject(id, input, now) =>
      if Projects.UpdateProjectAsWritten(s, id, input, now).Ok? {
        Projects.UpdateProjectAsWrittenKeepsCoherent(s, id, input, now);
      }
    case Favorite(id) =>
      if Projects.ToggleFavorite(s, id).Ok? {
        Projects.ToggleFavoriteKeepsCoherent(s, id);
      }
    case RemoveProject(id) =>
      if Projects.DeleteProject(s, id).Ok? {
        Projects.DeleteProjectKeepsCoherent(s, id);
      }
    case NewVersion(id, input, now) =>
      if Versions.CreateVersion(s, id, input, now).Ok? {
        Versions.CreateVersionKeepsCoherent(s, id, input, now);
      }
  }

  /** Any sequence of requests to the handlers as written keeps the store coherent. */
  lemma {:induction false} RunAsWrittenKeepsCoherent(s: Store, ops: seq<Op>)
    requires Coherent(s)
    ensures Coherent(RunAsWritten(s, ops))
    decreases |ops|
  {
    if ops != [] {
      StepAsWrittenKeepsCoherent(s, ops[0]);
      RunAsWrittenKeepsCoherent(StepAsWritten(s, ops[0]), ops[1..]);
    }
  }

  /** Every store the handlers as written reach from an empty database has
      unique category names, no orphan versions and histories numbered 1..n. */
  lemma ReachableAsWrittenIsCoherent(ops: seq<Op>)
    ensures Coherent(RunAsWritten(EmptyStore, ops))
  {
    EmptyStoreValid();
    RunAsWrittenKeepsCoherent(EmptyStore, ops);
  }

  /** The version history of any store the handlers as written reach is
      numbered exactly 1..n per project. */
  lemma ReachableAsWrittenNumbering(ops: seq<Op>, project: Id)
    ensures var s := RunAsWritten(EmptyStore, ops);
            Versions.NumbersOf(s.versions, project) == Versions.OneTo(|VersionsOf(s.versions, project)|)
  {
    ReachableAsWrittenIsCoherent(ops);
    var s := RunAsWritten(EmptyStore, ops);
    assert DenselyNumbered(s.versions, project);
    Versions.NumbersAreOneToN(s.versions, project);
  }

  /** The handlers as written reach a store that is not `Valid` in one
      request, which the corrected program refuses. */
  lemma AsWrittenReachesDanglingCategory()
    ensures var ops := [NewProject(ProjectInput("p", None, None, Some(7), None, None, None), 0)];
            !Valid(RunAsWritten(EmptyStore, ops)) && Run(EmptyStore, ops) == EmptyStore
  {
    var op := NewProject(ProjectInput("p", None, None, Some(7), None, None, None), 0);
    var (t, id) := Projects.CreateProjectAsWritten(EmptyStore, op.project, 0);
    assert RunAsWritten(EmptyStore, [op]) == RunAsWritten(t, []);
    assert t.projects[id].categoryId == Some(7) && 7 !in t.categories;
    assert Run(EmptyStore, [op]) == Run(EmptyStore, []);
  }
}
