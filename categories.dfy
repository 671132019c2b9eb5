/** The category routes: the listing by name, lookup by id, and the authenticated
    create, update and delete. Category names are kept unique by the route's own
    existence check on create and by the schema's unique index on update. */
module Categories {
  import opened Js
  import opened Models
  import opened Validators
  import opened Db
  import opened Sorting

  // ---------------------------------------------------------------------------
  // GET /categories: `sort({ name: 1 })`
  // ---------------------------------------------------------------------------

  /** Lexicographic order on strings by code point, the store's default string order:
      a prefix sorts before every extension of it. */
  predicate LexLe(a: string, b: string): (r: bool)
    ensures a <= b ==> r
  {
    if a == [] then true
    else if b == [] then false
    else if a[0] != b[0] then a[0] < b[0]
    else LexLe(a[1..], b[1..])
  }

  lemma {:induction false} LexTotal(a: string, b: string)
    ensures LexLe(a, b) || LexLe(b, a)
  {
    if a != [] && b != [] && a[0] == b[0] {
      LexTotal(a[1..], b[1..]);
    }
  }

  lemma {:induction false} LexTransitive(a: string, b: string, c: string)
    requires LexLe(a, b) && LexLe(b, c)
    ensures LexLe(a, c)
  {
    if a != [] && b != [] && c != [] && a[0] == b[0] && b[0] == c[0] {
      LexTransitive(a[1..], b[1..], c[1..]);
    }
  }

  lemma {:induction false} LexAntisymmetric(a: string, b: string)
    requires LexLe(a, b) && LexLe(b, a)
    ensures a == b
  {
    if a != [] && b != [] {
      LexAntisymmetric(a[1..], b[1..]);
      assert a == [a[0]] + a[1..] && b == [b[0]] + b[1..];
    }
  }

  /** Categories ordered by name. */
  predicate ByName(x: Category, y: Category)
  {
    LexLe(x.name, y.name)
  }

  lemma ByNameOrders()
    ensures TotalPreorder(ByName)
  {
    forall x: Category, y: Category ensures ByName(x, y) || ByName(y, x) {
      LexTotal(x.name, y.name);
    }
    forall x: Category, y: Category, z: Category | ByName(x, y) && ByName(y, z) ensures ByName(x, z) {
      LexTransitive(x.name, y.name, z.name);
    }
  }

  /** GET /categories: every category once, ordered by name. */
  function ListCategories(categories: seq<Category>): (r: seq<Category>)
    ensures multiset(r) == multiset(categories)
    ensures SortedBy(r, ByName)
  {
    ByNameOrders();
    SortBySorted(categories, ByName);
    SortBy(categories, ByName)
  }

  /** With unique names the listing order is fully determined: it does not depend on the
      order in which the store holds the categories. */
  lemma NameOrderIsUnique(a: seq<Category>, b: seq<Category>)
    requires multiset(a) == multiset(b) && NamesUnique(a)
    requires SortedBy(a, ByName) && SortedBy(b, ByName)
    ensures a == b
  {
    forall i, j | 0 <= i < j < |a| ensures !ByName(a[j], a[i]) {
      if ByName(a[j], a[i]) {
        LexAntisymmetric(a[i].name, a[j].name);
      }
    }
    SortedIsUnique(a, b, ByName);
  }

  /** Two stores holding the same categories in different orders list them identically. */
  lemma ListingIgnoresStoreOrder(s: seq<Category>, t: seq<Category>)
    requires multiset(s) == multiset(t) && NamesUnique(s)
    ensures ListCategories(s) == ListCategories(t)
  {
    PermutationNamesUnique(s, ListCategories(s));
    NameOrderIsUnique(ListCategories(s), ListCategories(t));
  }

  /** Unique names survive a permutation. */
  lemma PermutationNamesUnique(s: seq<Category>, r: seq<Category>)
    requires NamesUnique(s) && multiset(r) == multiset(s)
    ensures NamesUnique(r)
  {
    forall i, j | 0 <= i < j < |r| ensures r[i].name != r[j].name {
      assert r[i] in multiset(s) && r[j] in multiset(s);
      var a :| 0 <= a < |s| && s[a] == r[i];
      var b :| 0 <= b < |s| && s[b] == r[j];
      assert NoDuplicates(s) by {
        forall x, y | 0 <= x < y < |s| ensures s[x] != s[y] {
          assert s[x].name != s[y].name;
        }
      }
      PermutationNoDuplicates(s, r);
      assert r[i] != r[j];
      assert a != b;
    }
  }

  // ---------------------------------------------------------------------------
  // GET /categories/:id
  // ---------------------------------------------------------------------------

  function GetCategory(categories: seq<Category>, id: Id): (r: Response<Category>)
    ensures r.Ok? <==> exists k :: 0 <= k < |categories| && categories[k].id == id
    ensures r.Ok? ==> r.status == 200 && r.body in categories && r.body.id == id
    ensures !r.Ok? ==> r == Refused(404, "Category not found")
  {
    match IndexOf(categories, CategoryId, id)
    case None => Refused(404, "Category not found")
    case Some(i) => Ok(200, categories[i])
  }

  // ---------------------------------------------------------------------------
  // Name uniqueness
  // ---------------------------------------------------------------------------

  function CategoryName(c: Category): string { c.name }

  /** Another category than the one at `i` has the name `name`. */
  predicate NameTakenByOther(categories: seq<Category>, i: int, name: string)
  {
    exists k :: 0 <= k < |categories| && k != i && categories[k].name == name
  }

  /** Adding a schema-valid category with a fresh id and an unused name keeps the
      categories valid. */
  lemma AppendKeepsValid(cs: seq<Category>, x: Category)
    requires CategoriesValid(cs) && CategorySchemaValid(x)
    requires IndexOf(cs, CategoryId, x.id).None? && IndexOf(cs, CategoryName, x.name).None?
    ensures CategoriesValid(cs + [x])
  {
    AppendKeepsDistinct(cs, CategoryId, x);
    assert forall k :: 0 <= k < |cs| ==> CategoryName(cs[k]) != x.name;
  }

  /** Replacing a category by a schema-valid one with its id and a name no other
      category has keeps the categories valid. */
  lemma ReplaceKeepsValid(cs: seq<Category>, i: nat, x: Category)
    requires CategoriesValid(cs) && i < |cs| && CategorySchemaValid(x)
    requires x.id == cs[i].id && !NameTakenByOther(cs, i, x.name)
    ensures CategoriesValid(cs[i := x])
  {
    ReplaceKeepsDistinct(cs, CategoryId, i, x);
    var r := cs[i := x];
    forall a, b | 0 <= a < b < |r| ensures r[a].name != r[b].name {
      if a == i {
        assert cs[b].name != x.name;
      } else if b == i {
        assert cs[a].name != x.name;
      }
    }
  }

  /** Removing a category keeps the rest valid. */
  lemma RemoveKeepsValid(cs: seq<Category>, i: nat)
    requires CategoriesValid(cs) && i < |cs|
    ensures CategoriesValid(cs[..i] + cs[i + 1..])
  {
    RemoveKeepsDistinct(cs, CategoryId, i);
    var r := cs[..i] + cs[i + 1..];
    forall a, b | 0 <= a < b < |r| ensures r[a].name != r[b].name {
      var a', b' := if a < i then a else a + 1, if b < i then b else b + 1;
      assert r[a] == cs[a'] && r[b] == cs[b'];
    }
  }

  // ---------------------------------------------------------------------------
  // POST /categories
  // ---------------------------------------------------------------------------

  /** The document `Category.create` is given. Once the request validator has accepted
      the body, the schema refuses it only when the name is blank after trimming. */
  function NewCategory(id: Id, body: CategoryPayload, now: int): (r: Category)
    requires body.name.Some?
    ensures r.id == id && r.createdAt == now && r.description == body.description
    ensures CategoryValidator(body).None? ==> (SaveCategory(r).Some? <==> Trim(body.name.value) != "")
  {
    Category(id, body.name.value, body.description, now)
  }

  /** A non-empty name made only of white space passes the request validator, but the
      schema trims it to `""` and refuses it, so the create ends in a server error rather
      than a 400. */
  lemma BlankNameReachesSchema(s: string, id: Id, now: int)
    requires s != "" && |s| <= CategoryNameMax
    requires forall k :: 0 <= k < |s| ==> IsJsSpace(s[k])
    ensures CategoryValidator(CategoryPayload(Some(s), None, [])).None?
    ensures SaveCategory(NewCategory(id, CategoryPayload(Some(s), None, []), now)).None?
  {
    assert Trim(s) == "";
  }

  method CreateCategory(store: Store, body: CategoryPayload, newId: Id, now: int, fault: Fault)
    returns (r: Response<Category>)
    requires store.Valid()
    requires IndexOf(store.categories, CategoryId, newId).None?
    modifies store
    ensures store.Valid()
    ensures store.users == old(store.users) && store.posts == old(store.posts)
    ensures store.comments == old(store.comments)
    ensures CategoryValidator(body).Some? ==>
      r == Refused(400, Message(CategoryValidator(body).value)) && store.categories == old(store.categories)
    ensures CategoryValidator(body).None? && fault == FailLoad ==>
      r == ServerError && store.categories == old(store.categories)
    // the existence check compares the trimmed name, as the schema does on save
    ensures CategoryValidator(body).None? && fault != FailLoad
            && IndexOf(old(store.categories), CategoryName, Trim(body.name.value)).Some? ==>
      r == Refused(400, "Category already exists") && store.categories == old(store.categories)
    ensures CategoryValidator(body).None? && fault != FailLoad
            && IndexOf(old(store.categories), CategoryName, Trim(body.name.value)).None? ==>
      var saved := SaveCategory(NewCategory(newId, body, now));
      && (saved.None? || fault == FailWrite ==> r == ServerError && store.categories == old(store.categories))
      && (saved.Some? && fault != FailWrite ==>
            r == Ok(201, saved.value) && store.categories == old(store.categories) + [saved.value])
    ensures r.Ok? ==> r.body.name == Trim(body.name.value) && r.body.description == body.description
  {
    var error := CategoryValidator(body);
    if error.Some? {
      return Refused(400, Message(error.value));
    }
    if fault == FailLoad {
      return ServerError;
    }
    var name := Trim(body.name.value);
    if IndexOf(store.categories, CategoryName, name).Some? {
      return Refused(400, "Category already exists");
    }
    var saved := SaveCategory(NewCategory(newId, body, now));
    if saved.None? || fault == FailWrite {
      return ServerError;
    }
    AppendCategory(store, saved.value);
    r := Ok(201, saved.value);
  }

  /** The write of a create: appends a category the schema has accepted, with a fresh id
      and a name no category has. */
  method AppendCategory(store: Store, c: Category)
    requires store.Valid() && CategorySchemaValid(c)
    requires IndexOf(store.categories, CategoryId, c.id).None?
    requires IndexOf(store.categories, CategoryName, c.name).None?
    modifies store
    ensures store.Valid()
    ensures store.users == old(store.users) && store.posts == old(store.posts)
    ensures store.comments == old(store.comments)
    ensures store.categories == old(store.categories) + [c]
  {
    AppendKeepsValid(store.categories, c);
    store.categories := store.categories + [c];
  }

  /** Creating the same category twice refuses the second request and stores one. */
  method CreateTwice(store: Store, body: CategoryPayload, id1: Id, id2: Id, now: int)
    returns (first: Response<Category>, second: Response<Category>)
    requires store.Valid() && id1 != id2
    requires IndexOf(store.categories, CategoryId, id1).None?
    requires IndexOf(store.categories, CategoryId, id2).None?
    requires CategoryValidator(body).None?
    requires IndexOf(store.categories, CategoryName, Trim(body.name.value)).None?
    requires SaveCategory(NewCategory(id1, body, now)).Some?
    modifies store
    ensures first.Ok? && first.status == 201
    ensures second == Refused(400, "Category already exists")
    ensures |store.categories| == |old(store.categories)| + 1
  {
    ghost var stored := SaveCategory(NewCategory(id1, body, now)).value;
    first := CreateCategory(store, body, id1, now, NoFault);
    assert first == Ok(201, stored) && store.categories == old(store.categories) + [stored];
    ghost var afterFirst := store.categories;
    assert CategoryName(afterFirst[|afterFirst| - 1]) == Trim(body.name.value);
    assert IndexOf(afterFirst, CategoryName, Trim(body.name.value)).Some?;
    assert IndexOf(afterFirst, CategoryId, id2).None? by {
      forall k | 0 <= k < |afterFirst| ensures CategoryId(afterFirst[k]) != id2 {
        if k < |afterFirst| - 1 {
          assert afterFirst[k] == old(store.categories)[k];
        }
      }
    }
    second := CreateCategory(store, body, id2, now, NoFault);
    assert store.categories == afterFirst;
  }

  // ---------------------------------------------------------------------------
  // PUT /categories/:id
  // ---------------------------------------------------------------------------

  /** The name when it is truthy, the description when it is truthy; otherwise the stored
      values stay. */
  function Revised(c: Category, body: CategoryPayload): (r: Category)
    ensures r.id == c.id && r.createdAt == c.createdAt
    ensures Truthy(body.name) ==> r.name == body.name.value
    ensures !Truthy(body.name) ==> r.name == c.name
    ensures Truthy(body.description) ==> r.description == body.description
    ensures !Truthy(body.description) ==> r.description == c.description
  {
    c.(name := Or(body.name, c.name), description := OrElse(body.description, c.description))
  }

  /** The validator allows an empty description, but `""` is falsy, so sending it keeps
      the old description: an update can never clear one. */
  lemma EmptyDescriptionKeepsOld(c: Category, name: string)
    requires name != "" && |name| <= CategoryNameMax
    ensures CategoryValidator(CategoryPayload(Some(name), Some(""), [])).None?
    ensures Revised(c, CategoryPayload(Some(name), Some(""), [])).description == c.description
  {
  }

  method UpdateCategory(store: Store, id: Id, body: CategoryPayload, fault: Fault)
    returns (r: Response<Category>)
    requires store.Valid()
    modifies store
    ensures store.Valid()
    ensures store.users == old(store.users) && store.posts == old(store.posts)
    ensures store.comments == old(store.comments)
    ensures fault == FailLoad ==> r == ServerError && store.categories == old(store.categories)
    // the lookup comes before validation, so an unknown id is 404 whatever the body
    ensures fault != FailLoad && IndexOf(old(store.categories), CategoryId, id).None? ==>
      r == Refused(404, "Category not found") && store.categories == old(store.categories)
    ensures fault != FailLoad && IndexOf(old(store.categories), CategoryId, id).Some?
            && CategoryValidator(body).Some? ==>
      r == Refused(400, Message(CategoryValidator(body).value)) && store.categories == old(store.categories)
    ensures fault != FailLoad && IndexOf(old(store.categories), CategoryId, id).Some?
            && CategoryValidator(body).None? ==>
      var i := IndexOf(old(store.categories), CategoryId, id).value;
      var saved := SaveCategory(Revised(old(store.categories)[i], body));
      // invalid after trimming, a name another category has, or a failing write
      && (saved.None? || NameTakenByOther(old(store.categories), i, saved.value.name) || fault == FailWrite ==>
            r == ServerError && store.categories == old(store.categories))
      && (saved.Some? && !NameTakenByOther(old(store.categories), i, saved.value.name) && fault != FailWrite ==>
            r == Ok(200, saved.value) && store.categories == old(store.categories)[i := saved.value])
  {
    if fault == FailLoad {
      return ServerError;
    }
    var found := IndexOf(store.categories, CategoryId, id);
    if found.None? {
      return Refused(404, "Category not found");
    }
    var i := found.value;
    var error := CategoryValidator(body);
    if error.Some? {
      return Refused(400, Message(error.value));
    }
    var saved := SaveCategory(Revised(store.categories[i], body));
    if saved.None? {
      return ServerError;
    }
    if exists k :: 0 <= k < |store.categories| && k != i && store.categories[k].name == saved.value.name {
      return ServerError;
    }
    if fault == FailWrite {
      return ServerError;
    }
    ReplaceKeepsValid(store.categories, i, saved.value);
    store.categories := store.categories[i := saved.value];
    r := Ok(200, saved.value);
  }

  // ---------------------------------------------------------------------------
  // DELETE /categories/:id
  // ---------------------------------------------------------------------------

  /** The delete removes the category only: posts that name it keep doing so. */
  method DeleteCategory(store: Store, id: Id, fault: Fault)
    returns (r: Response<string>)
    requires store.Valid()
    modifies store
    ensures store.Valid()
    ensures store.users == old(store.users) && store.posts == old(store.posts)
    ensures store.comments == old(store.comments)
    ensures fault == FailLoad ==> r == ServerError && store.categories == old(store.categories)
    ensures fault != FailLoad && IndexOf(old(store.categories), CategoryId, id).None? ==>
      r == Refused(404, "Category not found") && store.categories == old(store.categories)
    ensures fault != FailLoad && IndexOf(old(store.categories), CategoryId, id).Some? ==>
      var i := IndexOf(old(store.categories), CategoryId, id).value;
      && (fault == FailWrite ==> r == ServerError && store.categories == old(store.categories))
      && (fault != FailWrite ==>
            && r == Ok(200, "Category deleted successfully")
            && store.categories == old(store.categories)[..i] + old(store.categories)[i + 1..]
            && (forall c :: c in store.categories <==> c in old(store.categories) && c.id != id))
  {
    if fault == FailLoad {
      return ServerError;
    }
    var found := IndexOf(store.categories, CategoryId, id);
    if found.None? {
      return Refused(404, "Category not found");
    }
    var i := found.value;
    if fault == FailWrite {
      return ServerError;
    }
    RemoveKeepsValid(store.categories, i);
    store.categories := store.categories[..i] + store.categories[i + 1..];
    r := Ok(200, "Category deleted successfully");
  }
}
