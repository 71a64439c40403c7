/** The three tables of the store (categories, projects, versions), the
    request bodies that create or overwrite their rows, and the invariant the
    route handlers maintain together.
 */
module Models {
  import opened Base
  import Ordering

  /** A primary key. SQLite hands out integer keys; callers may send any integer. */
  type Id = int

  /** A reading of the server clock (`datetime.utcnow()`), abstracted to a number. */
  type Time = nat

  // ---------------------------------------------------------------- entities

  datatype Category = Category(
    name: string,
    color: string,          // badge colour for the UI
    icon: Option<string>,   // icon name
    sortOrder: int)

  datatype Project = Project(
    name: string,
    description: Option<string>,
    tags: seq<string>,
    categoryId: Option<Id>, // foreign key to a category, or none
    isFavorite: bool,
    createdAt: Time,
    updatedAt: Time,
    kind: string)           // the `type` column: "text" or "image"

  datatype Version = Version(
    projectId: Id,          // foreign key to the owning project
    versionNum: int,
    content: string,
    negativePrompt: Option<string>,
    parameters: map<string, string>,
    changelog: Option<string>,
    createdAt: Time)

  // ---------------------------------------------------------- request bodies

  /** Body of a category create or update request; `None` marks an omitted field. */
  datatype CategoryInput = CategoryInput(name: string, color: Option<string>, icon: Option<string>)

  /** Body of a project create or update request; `None` in a field that has a
      column default marks it omitted. `description` and `categoryId` are
      nullable, so for them `None` is also the value sent. */
  datatype ProjectInput = ProjectInput(
    name: string,
    description: Option<string>,
    tags: Option<seq<string>>,
    categoryId: Option<Id>,
    isFavorite: Option<bool>,
    createdAt: Option<Time>,
    kind: Option<string>)

  /** Body of a version create request. The owning project and the number are
      assigned by the handler, so they are not part of it. */
  datatype VersionInput = VersionInput(
    content: string,
    negativePrompt: Option<string>,
    parameters: Option<map<string, string>>,
    changelog: Option<string>,
    createdAt: Option<Time>)

  const DefaultColor: string := "blue"
  const DefaultKind: string := "text"

  /** The Category a request body parses to, column defaults filled in. */
  function CategoryFromInput(input: CategoryInput): (c: Category)
    ensures c.name == input.name && c.icon == input.icon
    ensures input.color.None? ==> c.color == DefaultColor
    ensures input.color.Some? ==> c.color == input.color.value
    ensures c.sortOrder == 0
  {
    Category(input.name, input.color.GetOr(DefaultColor), input.icon, 0)
  }

  /** The Project a request body parses to at time `now`, column defaults filled in. */
  function ProjectFromInput(input: ProjectInput, now: Time): (p: Project)
    ensures p.name == input.name && p.description == input.description
    ensures p.categoryId == input.categoryId
    ensures input.tags.None? ==> p.tags == []
    ensures input.tags.Some? ==> p.tags == input.tags.value
    ensures input.isFavorite.None? ==> !p.isFavorite
    ensures input.isFavorite.Some? ==> p.isFavorite == input.isFavorite.value
    ensures input.kind.None? ==> p.kind == DefaultKind
    ensures input.kind.Some? ==> p.kind == input.kind.value
    ensures input.createdAt.None? ==> p.createdAt == now
    ensures input.createdAt.Some? ==> p.createdAt == input.createdAt.value
    ensures p.updatedAt == now
  {
    Project(
      input.name, input.description, input.tags.GetOr([]), input.categoryId,
      input.isFavorite.GetOr(false), input.createdAt.GetOr(now), now,
      input.kind.GetOr(DefaultKind))
  }

  /** A category whose body names only the name gets colour "blue", no icon and order 0. */
  lemma CategoryDefaults(name: string)
    ensures CategoryFromInput(CategoryInput(name, None, None)) == Category(name, "blue", None, 0)
  {
  }

  /** A project whose body names only the name gets no tags, no category, no
      favourite flag and type "text". */
  lemma ProjectDefaults(name: string, now: Time)
    ensures var p := ProjectFromInput(ProjectInput(name, None, None, None, None, None, None), now);
            p.tags == [] && p.categoryId == None && !p.isFavorite && p.kind == "text"
            && p.description == None && p.createdAt == now && p.updatedAt == now
  {
  }

  // ------------------------------------------------------------------ tables

  /** The key SQLite gives a row inserted without one: one above the largest
      key in the table, or 1 when the table is empty. */
  function NextId<T>(rows: map<Id, T>): (k: Id)
    ensures k !in rows
    ensures forall j :: j in rows ==> j < k
    ensures rows == map[] ==> k == 1
    ensures rows != map[] ==> k - 1 in rows
  {
    if rows == map[] then 1 else Ordering.MaxOf(rows.Keys) + 1
  }

  /** The three tables, each by primary key. */
  datatype Store = Store(
    categories: map<Id, Category>,
    projects: map<Id, Project>,
    versions: map<Id, Version>)

  const EmptyStore: Store := Store(map[], map[], map[])

  // --------------------------------------------------------------- invariant

  /** No two categories share a name (the unique index on `category.name`). */
  predicate UniqueNames(cats: map<Id, Category>) {
    forall a, b :: a in cats && b in cats && cats[a].name == cats[b].name ==> a == b
  }

  /** Every project's category is absent or a live category. */
  predicate CategoryRefsLive(cats: map<Id, Category>, projects: map<Id, Project>) {
    forall p :: p in projects && projects[p].categoryId.Some? ==> projects[p].categoryId.value in cats
  }

  /** Every version belongs to a live project. */
  predicate VersionRefsLive(projects: map<Id, Project>, versions: map<Id, Version>) {
    forall v :: v in versions ==> versions[v].projectId in projects
  }

  /** The keys of the versions of project `p`. */
  function VersionsOf(versions: map<Id, Version>, p: Id): (r: set<Id>)
    ensures forall v :: v in r <==> v in versions && versions[v].projectId == p
  {
    set v | v in versions && versions[v].projectId == p
  }

  /** The versions of project `p` carry pairwise distinct numbers within
      1..n, n being how many there are: they are numbered exactly 1..n. */
  ghost predicate DenselyNumbered(versions: map<Id, Version>, p: Id) {
    var mine := VersionsOf(versions, p);
    && (forall v :: v in mine ==> 1 <= versions[v].versionNum <= |mine|)
    && (forall v, w :: v in mine && w in mine && versions[v].versionNum == versions[w].versionNum ==> v == w)
  }

  ghost predicate NumberedPerProject(versions: map<Id, Version>) {
    forall p :: DenselyNumbered(versions, p)
  }

  /** The invariant the routes keep even without the foreign key on
      `project.category_id` enforced: unique category names, no orphan
      versions, and every history numbered 1..n. */
  ghost predicate Coherent(s: Store) {
    && UniqueNames(s.categories)
    && VersionRefsLive(s.projects, s.versions)
    && NumberedPerProject(s.versions)
  }

  /** The invariant every route preserves once that foreign key is enforced:
      in addition, every project's category is absent or live. */
  ghost predicate Valid(s: Store) {
    && Coherent(s)
    && CategoryRefsLive(s.categories, s.projects)
  }

  lemma EmptyStoreValid()
    ensures Valid(EmptyStore)
  {
  }
}
