/**
 * Adding a category: the admin's message, trimmed, names the new category;
 * a name already in use is refused, otherwise the category is placed after
 * every existing one in display order.
 */
module Categories {
  import opened Text
  import opened Store

  /** What the admin is told. */
  datatype AddOutcome = Duplicate | Added(category: Category)

  /** The largest display order of a non-empty listing
      (`Math.max(...categories.map(c => c.displayOrder))`). */
  function MaxDisplayOrder(cats: seq<Category>): (m: int)
    requires cats != []
    ensures forall i :: 0 <= i < |cats| ==> cats[i].displayOrder <= m
    ensures exists i :: 0 <= i < |cats| && cats[i].displayOrder == m
  {
    if |cats| == 1 then cats[0].displayOrder
    else
      var rest := MaxDisplayOrder(cats[1..]);
      assert forall i :: 1 <= i < |cats| ==> cats[i] == cats[1..][i - 1];
      if cats[0].displayOrder >= rest then cats[0].displayOrder else rest
  }

  /** The display order of a new category: one past the largest in use, or
      1 for the first category. */
  function NewDisplayOrder(cats: seq<Category>): (order: int)
    ensures forall i :: 0 <= i < |cats| ==> cats[i].displayOrder < order
    ensures cats == [] ==> order == 1
    ensures cats != [] ==> exists i :: 0 <= i < |cats| && order == cats[i].displayOrder + 1
  {
    if |cats| > 0 then MaxDisplayOrder(cats) + 1 else 1
  }

  /** Some category of the listing is called `name`. */
  predicate NameTaken(cats: seq<Category>, name: string) {
    exists i :: 0 <= i < |cats| && cats[i].name == name
  }

  /** `handleNewCategoryName(chatId, text)`: refused with nothing written
      when the trimmed name is taken; otherwise the category is written and
      the admin's state is cleared. */
  function HandleNewCategoryName(db: Db, chatId: string, text: string): (r: (Db, AddOutcome))
    ensures r.1 == Duplicate <==> NameTaken(db.categories, Trim(text))
    ensures r.1 == Duplicate ==> r.0 == db
    ensures r.1.Added? ==>
      && r.1.category.name == Trim(text)
      && r.1.category.displayOrder == NewDisplayOrder(db.categories)
      && r.0 == db.(categories := db.categories + [r.1.category], userStates := db.userStates - {chatId})
  {
    var categoryName := Trim(text);
    if NameTaken(db.categories, categoryName) then (db, Duplicate)
    else
      var category := Category(categoryName, NewDisplayOrder(db.categories));
      (db.(categories := db.categories + [category], userStates := db.userStates - {chatId}), Added(category))
  }

  /** No two categories share a name. */
  predicate DistinctNames(cats: seq<Category>) {
    forall i, j :: 0 <= i < j < |cats| ==> cats[i].name != cats[j].name
  }

  /** No two categories share a display order. */
  predicate DistinctOrders(cats: seq<Category>) {
    forall i, j :: 0 <= i < j < |cats| ==> cats[i].displayOrder != cats[j].displayOrder
  }

  /** Adding categories only through this handler keeps names unique and
      display orders unique, and the new category sorts last. */
  lemma AddKeepsListingSound(db: Db, chatId: string, text: string)
    requires DistinctNames(db.categories) && DistinctOrders(db.categories)
    ensures var r := HandleNewCategoryName(db, chatId, text);
      && DistinctNames(r.0.categories) && DistinctOrders(r.0.categories)
      && (r.1.Added? ==> forall i :: 0 <= i < |db.categories| ==>
            r.0.categories[i].displayOrder < r.0.categories[|db.categories|].displayOrder)
  {
    var r := HandleNewCategoryName(db, chatId, text);
    if r.1.Added? {
      var cats := r.0.categories;
      var before := db.categories;
      var added := r.1.category;
      assert cats == before + [added];
      forall i | 0 <= i < |before|
        ensures cats[i] == before[i] && cats[i].name != added.name && cats[i].displayOrder < added.displayOrder
      {
        assert !(before[i].name == Trim(text));
      }
      assert cats[|before|] == added;
      forall i, j | 0 <= i < j < |cats| ensures cats[i].name != cats[j].name && cats[i].displayOrder != cats[j].displayOrder {
        if j < |before| {
          assert cats[i] == before[i] && cats[j] == before[j];
        }
      }
    }
  }
}
