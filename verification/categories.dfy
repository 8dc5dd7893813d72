/** The category service: the shared localized catalog over the `category` tables, with the
    question links a delete clears. */
module Categories {
  import opened Wrappers
  import opened Common
  import opened Localization
  import opened Store
  import Catalog

  /** The message of the `IllegalArgumentException` an update of an unknown id throws. */
  const NotFoundMessage: string := "Category not found"

  /** `create(userName, locale, category)`: only the category tables change. A taken id writes
      nothing and fails; an overlay already under (id, locale) fails after the base row went
      in; otherwise the category reads back as created, stamped with its creator. */
  function Create(db: Db, user: string, locale: Option<Locale>, e: Catalog.Entity): (r: (Db, Result<Catalog.Entity, Error>))
    ensures r.0 == db.(categories := r.0.categories)
    ensures r.1.Failure? <==> e.id in db.categories.rows || (locale.Some? && (e.id, locale.value) in db.categories.titles)
    ensures e.id in db.categories.rows ==> r.0 == db
    ensures e.id !in db.categories.rows ==> Catalog.Read(r.0.categories, e.id, None) == Some(e.(createdBy := Some(user)))
    ensures r.1.Success? ==>
      && r.1.value == e.(createdBy := Some(user))
      && Catalog.Read(r.0.categories, e.id, locale) == Some(r.1.value)
  {
    var (c, res) := Catalog.Create(db.categories, user, locale, e);
    (db.(categories := c), res)
  }

  /** `read(userName, id, locale)`: the base row, its title resolved for the locale. */
  function Read(db: Db, user: string, id: string, locale: Option<Locale>): (r: Option<Catalog.Entity>)
    ensures r.None? <==> id !in db.categories.rows
    ensures r.Some? && locale.Some? && (id, locale.value) in db.categories.titles ==>
      r.value.title == db.categories.titles[(id, locale.value)]
    ensures r.Some? && (locale.None? || (id, locale.value) !in db.categories.titles) ==>
      r.value == db.categories.rows[id]
  {
    Catalog.Read(db.categories, id, locale)
  }

  /** `update(id, userName, locale, category)`: an unknown id fails with "Category not found" and
      writes nothing; otherwise the category reads back with the new title in the locale
      written, and under a locale the base title stays. */
  function Update(db: Db, id: string, user: string, locale: Option<Locale>, e: Catalog.Entity): (r: Result<(Db, Catalog.Entity), Error>)
    ensures r.Failure? <==> id !in db.categories.rows
    ensures r.Failure? ==> r.error == NotFound(NotFoundMessage)
    ensures r.Success? ==>
      && r.value.0 == db.(categories := r.value.0.categories)
      && r.value.1.title == e.title
      && Read(r.value.0, user, id, locale) == Some(r.value.1)
      && (locale.Some? ==> Read(r.value.0, user, id, None).value.title == db.categories.rows[id].title)
  {
    var (c, got) :- Catalog.Update(db.categories, id, user, locale, e, NotFoundMessage);
    Success((db.(categories := c), got))
  }

  /** `list(userName, locale)`: every category without a locale; with one, only those with
      no overlay at all or one for that locale. */
  function List(db: Db, user: string, locale: Option<Locale>): (r: set<Catalog.Entity>)
    ensures locale.None? ==> r == db.categories.rows.Values
    ensures forall e :: e in r ==> exists k :: k in db.categories.rows && Read(db, user, k, locale) == Some(e)
  {
    Catalog.List(db.categories, locale)
  }

  /** A localized list shows a category exactly when it has no overlay at all or one for the
      requested locale. */
  lemma ListIff(db: Db, user: string, l: Locale, k: string)
    requires Catalog.WellKeyed(db.categories) && k in db.categories.rows
    ensures (exists e :: e in List(db, user, Some(l)) && e.id == k) <==>
      ((forall m :: (k, m) !in db.categories.titles) || (k, l) in db.categories.titles)
  {
    Catalog.ListMembership(db.categories, l, k);
  }

  /** `delete(userName, id)`: the question links to the category, then its overlays, then
      its row; true iff the row existed. Nothing else changes, and afterwards the category
      reads as absent and no question is linked to it. */
  function Delete(db: Db, user: string, id: string): (r: (Db, bool))
    ensures r.1 <==> id in db.categories.rows
    ensures r.0 == db.(categories := r.0.categories, questionCategories := r.0.questionCategories)
    ensures forall p :: p in r.0.questionCategories <==> p in db.questionCategories && p.1 != id
    ensures forall k, l :: k in db.categories.rows && k != id ==> Read(r.0, user, k, l) == Read(db, user, k, l)
    ensures forall l :: Read(r.0, user, id, l) == None
  {
    var (c, kept, existed) := Catalog.Delete(db.categories, db.questionCategories, id);
    (db.(categories := c, questionCategories := kept), existed)
  }
}
