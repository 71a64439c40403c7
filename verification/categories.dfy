/** The category routes: listing, reordering, create, update and delete, and
    the seeding of default categories into an empty table at start-up.
 */
module Categories {
  import opened Base
  import opened Models
  import Ordering

  /** One element of a reorder request body. */
  datatype ReorderItem = ReorderItem(id: Id, sortOrder: int)

  /** Some category other than `self` is already called `name`. */
  predicate NameTaken(cats: map<Id, Category>, name: string, self: Option<Id>) {
    exists c :: c in cats && cats[c].name == name && self != Some(c)
  }

  // ------------------------------------------------------------ start-up seed

  /** The categories seeded into an empty table, in insertion order. */
  const DefaultCategories: seq<Category> := [
    Category("创意写作", "magenta", None, 1),
    Category("代码助手", "blue", None, 2),
    Category("数据分析", "cyan", None, 3),
    Category("图像生成", "purple", None, 4),
    Category("通用", "gold", None, 5)
  ]

  /** Insert the rows `cs` one after another, each under the next free key.
      Into an empty table they land under the keys 1, 2, ..., |cs|. */
  function InsertAll(rows: map<Id, Category>, cs: seq<Category>): (r: map<Id, Category>)
    ensures rows == map[] ==> forall k :: k in r <==> 1 <= k <= |cs|
    ensures rows == map[] ==> forall k :: 1 <= k <= |cs| ==> r[k] == cs[k - 1]
    decreases |cs|
  {
    if cs == [] then rows
    else
      var m := InsertAll(rows, cs[..|cs| - 1]);
      m[NextId(m) := cs[|cs| - 1]]
  }

  /** Start-up seeding: an empty category table receives the five default
      categories under keys 1..5; a non-empty one is left alone. */
  function Seed(s: Store): (t: Store)
    ensures s.categories != map[] ==> t == s
    ensures s.categories == map[] ==> forall k :: k in t.categories <==> 1 <= k <= 5
    ensures s.categories == map[] ==> forall k :: 1 <= k <= 5 ==> t.categories[k] == DefaultCategories[k - 1]
    ensures t.projects == s.projects && t.versions == s.versions
  {
    if s.categories == map[] then s.(categories := InsertAll(map[], DefaultCategories)) else s
  }

  // ------------------------------------------------------------------ listing

  /** `ids` lists every category exactly once, in ascending sort order. */
  ghost predicate IsCategoryListing(cats: map<Id, Category>, ids: seq<Id>) {
    && (forall c :: c in ids <==> c in cats)
    && Ordering.Distinct(ids)
    && (forall i, j :: 0 <= i < j < |ids| ==> cats[ids[i]].sortOrder <= cats[ids[j]].sortOrder)
  }

  /** GET /api/categories: every category, ascending by sort order. */
  method ListCategories(s: Store) returns (ids: seq<Id>)
    ensures IsCategoryListing(s.categories, ids)
    ensures |ids| == |s.categories|
  {
    var cats := s.categories;
    ids := Ordering.SortBy(cats.Keys, c => if c in cats then cats[c].sortOrder else 0);
  }

  // ------------------------------------------------------------------ reorder

  /** The sort order the last item naming `id` carries, if any item names it. */
  function LastOrder(items: seq<ReorderItem>, id: Id): (r: Option<int>)
    ensures r.None? <==> forall i :: 0 <= i < |items| ==> items[i].id != id
    ensures r.Some? ==> exists i :: 0 <= i < |items| && items[i].id == id && items[i].sortOrder == r.value
                                    && forall j :: i < j < |items| ==> items[j].id != id
    decreases |items|
  {
    if items == [] then None
    else if items[|items| - 1].id == id then Some(items[|items| - 1].sortOrder)
    else
      var r := LastOrder(items[..|items| - 1], id);
      assert forall i :: 0 <= i < |items| - 1 ==> items[..|items| - 1][i] == items[i];
      r
  }

  /** PUT /api/categories/reorder: each item that names a live category sets
      its sort order, later items winning; unknown ids are skipped and
      categories no item names keep their order. Nothing else changes. */
  function Reorder(s: Store, items: seq<ReorderItem>): (t: Store)
    ensures t.categories.Keys == s.categories.Keys
    ensures forall c :: c in s.categories && LastOrder(items, c).None? ==> t.categories[c] == s.categories[c]
    ensures forall c :: c in s.categories && LastOrder(items, c).Some? ==>
              t.categories[c] == s.categories[c].(sortOrder := LastOrder(items, c).value)
    ensures t.projects == s.projects && t.versions == s.versions
    decreases |items|
  {
    if items == [] then s
    else
      var t := Reorder(s, items[..|items| - 1]);
      var item := items[|items| - 1];
      if item.id in t.categories then
        t.(categories := t.categories[item.id := t.categories[item.id].(sortOrder := item.sortOrder)])
      else t
  }

  // ------------------------------------------------------------------- create

  /** The sort order of a new category: one above the largest existing one,
      or 1 when there is none. */
  function NextSortOrder(cats: map<Id, Category>): (o: int)
    ensures forall c :: c in cats ==> cats[c].sortOrder < o
    ensures cats == map[] ==> o == 1
    ensures cats != map[] ==> exists c :: c in cats && cats[c].sortOrder == o - 1
  {
    if cats == map[] then 1
    else
      var orders := set c | c in cats :: cats[c].sortOrder;
      assert forall c :: c in cats ==> cats[c].sortOrder in orders;
      assert orders != {} by {
        Ordering.HasMember(cats.Keys);
        var c :| c in cats.Keys;
        assert cats[c].sortOrder in orders;
      }
      Ordering.MaxOf(orders) + 1
  }

  /** POST /api/categories: a new category under a fresh key, sorted after
      every existing one; fails when the name is taken. */
  function CreateCategory(s: Store, input: CategoryInput): (r: Result<(Store, Id)>)
    ensures r.Err? <==> NameTaken(s.categories, input.name, None)
    ensures r.Err? ==> r.error == DuplicateName
    ensures r.Ok? ==>
      var (t, id) := r.value;
      && id !in s.categories
      && t.categories.Keys == s.categories.Keys + {id}
      && t.categories[id].name == input.name
      && t.categories[id].color == input.color.GetOr(DefaultColor)
      && t.categories[id].icon == input.icon
      && (forall c :: c in s.categories ==> t.categories[c] == s.categories[c])
      && t.categories[id].sortOrder == NextSortOrder(s.categories)
      && (forall c :: c in s.categories ==> t.categories[c].sortOrder < t.categories[id].sortOrder)
      && (s.categories != map[] ==> exists c :: c in s.categories && t.categories[c].sortOrder == t.categories[id].sortOrder - 1)
      && (s.categories == map[] ==> t.categories[id].sortOrder == 1)
      && t.projects == s.projects && t.versions == s.versions
  {
    if NameTaken(s.categories, input.name, None) then Err(DuplicateName)
    else
      var id := NextId(s.categories);
      var c := CategoryFromInput(input).(sortOrder := NextSortOrder(s.categories));
      Ok((s.(categories := s.categories[id := c]), id))
  }

  /** Whatever listing follows a successful create ends with the new category. */
  lemma NewCategoryListedLast(s: Store, input: CategoryInput, ids: seq<Id>)
    requires CreateCategory(s, input).Ok?
    requires IsCategoryListing(CreateCategory(s, input).value.0.categories, ids)
    ensures |ids| > 0 && ids[|ids| - 1] == CreateCategory(s, input).value.1
  {
    var (t, id) := CreateCategory(s, input).value;
    var cats := t.categories;
    var key := c => if c in cats then cats[c].sortOrder else 0;
    assert Ordering.SortedBy(ids, key) by {
      forall i, j | 0 <= i < j < |ids|
        ensures key(ids[i]) <= key(ids[j])
      {
        assert ids[i] in cats && ids[j] in cats;
      }
    }
    Ordering.StrictMaximumIsLast(ids, id, key);
  }

  // ------------------------------------------------------------------- update

  /** PUT /api/categories/{id}: overwrite name, colour and icon from the body
      (an omitted colour becomes "blue"), keep the sort order; fails when the
      category is absent or another category has the name. */
  function UpdateCategory(s: Store, id: Id, input: CategoryInput): (r: Result<Store>)
    ensures id !in s.categories ==> r == Err(NotFound)
    ensures id in s.categories && NameTaken(s.categories, input.name, Some(id)) ==> r == Err(DuplicateName)
    ensures r.Ok? <==> id in s.categories && !NameTaken(s.categories, input.name, Some(id))
    ensures r.Ok? ==>
      var t := r.value;
      && t.categories.Keys == s.categories.Keys
      && t.categories[id].name == input.name
      && t.categories[id].color == input.color.GetOr(DefaultColor)
      && t.categories[id].icon == input.icon
      && t.categories[id].sortOrder == s.categories[id].sortOrder
      && (forall c :: c in s.categories && c != id ==> t.categories[c] == s.categories[c])
      && t.projects == s.projects && t.versions == s.versions
  {
    if id !in s.categories then Err(NotFound)
    else if NameTaken(s.categories, input.name, Some(id)) then Err(DuplicateName)
    else
      var c := CategoryFromInput(input).(sortOrder := s.categories[id].sortOrder);
      Ok(s.(categories := s.categories[id := c]))
  }

  // ------------------------------------------------------------------- delete

  /** The project with its category cleared if it was `id`. */
  function Unlink(p: Project, id: Id): (q: Project)
    ensures q.categoryId != Some(id)
    ensures q.(categoryId := p.categoryId) == p
    ensures p.categoryId != Some(id) ==> q == p
  {
    if p.categoryId == Some(id) then p.(categoryId := None) else p
  }

  /** DELETE /api/categories/{id}: remove the category and clear it from the
      projects that referred to it; fails when it is absent. */
  function DeleteCategory(s: Store, id: Id): (r: Result<Store>)
    ensures r.Err? <==> id !in s.categories
    ensures r.Err? ==> r.error == NotFound
    ensures r.Ok? ==>
      var t := r.value;
      && t.categories.Keys == s.categories.Keys - {id}
      && (forall c :: c in t.categories ==> t.categories[c] == s.categories[c])
      && t.projects.Keys == s.projects.Keys
      && (forall p :: p in s.projects && s.projects[p].categoryId == Some(id) ==>
            t.projects[p] == s.projects[p].(categoryId := None))
      && (forall p :: p in s.projects && s.projects[p].categoryId != Some(id) ==>
            t.projects[p] == s.projects[p])
      && t.versions == s.versions
  {
    if id !in s.categories then Err(NotFound)
    else
      var projects := map p | p in s.projects :: Unlink(s.projects[p], id);
      Ok(Store(s.categories - {id}, projects, s.versions))
  }

  // --------------------------------------------------------------- invariant

  /** Seeding keeps the store coherent: the five default names are distinct. */
  lemma SeedKeepsCoherent(s: Store)
    requires Coherent(s)
    ensures Coherent(Seed(s))
  {
    if s.categories == map[] {
      var cats := Seed(s).categories;
      forall a, b | a in cats && b in cats && cats[a].name == cats[b].name
        ensures a == b
      {
        assert cats[a] == DefaultCategories[a - 1] && cats[b] == DefaultCategories[b - 1];
      }
    }
  }

  /** Seeding keeps the store valid: an empty category table means no project
      names a category. */
  lemma SeedKeepsValid(s: Store)
    requires Valid(s)
    ensures Valid(Seed(s))
  {
    SeedKeepsCoherent(s);
  }

  lemma CreateCategoryKeepsCoherent(s: Store, input: CategoryInput)
    requires Coherent(s) && CreateCategory(s, input).Ok?
    ensures Coherent(CreateCategory(s, input).value.0)
  {
  }

  lemma CreateCategoryKeepsValid(s: Store, input: CategoryInput)
    requires Valid(s) && CreateCategory(s, input).Ok?
    ensures Valid(CreateCategory(s, input).value.0)
  {
  }

  lemma UpdateCategoryKeepsCoherent(s: Store, id: Id, input: CategoryInput)
    requires Coherent(s) && UpdateCategory(s, id, input).Ok?
    ensures Coherent(UpdateCategory(s, id, input).value)
  {
    var cats := UpdateCategory(s, id, input).value.categories;
    forall a, b | a in cats && b in cats && cats[a].name == cats[b].name
      ensures a == b
    {
      if a == id || b == id {
        assert !NameTaken(s.categories, input.name, Some(id));
      }
    }
  }

  lemma UpdateCategoryKeepsValid(s: Store, id: Id, input: CategoryInput)
    requires Valid(s) && UpdateCategory(s, id, input).Ok?
    ensures Valid(UpdateCategory(s, id, input).value)
  {
    UpdateCategoryKeepsCoherent(s, id, input);
  }

  lemma ReorderKeepsCoherent(s: Store, items: seq<ReorderItem>)
    requires Coherent(s)
    ensures Coherent(Reorder(s, items))
  {
    var cats := Reorder(s, items).categories;
    forall a, b | a in cats && b in cats && cats[a].name == cats[b].name
      ensures a == b
    {
      assert cats[a].name == s.categories[a].name && cats[b].name == s.categories[b].name;
    }
  }

  lemma ReorderKeepsValid(s: Store, items: seq<ReorderItem>)
    requires Valid(s)
    ensures Valid(Reorder(s, items))
  {
    ReorderKeepsCoherent(s, items);
  }

  lemma DeleteCategoryKeepsCoherent(s: Store, id: Id)
    requires Coherent(s) && DeleteCategory(s, id).Ok?
    ensures Coherent(DeleteCategory(s, id).value)
  {
  }

  /** Deleting a category leaves no project naming it, so no reference dangles. */
  lemma DeleteCategoryKeepsValid(s: Store, id: Id)
    requires Valid(s) && DeleteCategory(s, id).Ok?
    ensures Valid(DeleteCategory(s, id).value)
  {
  }
}
