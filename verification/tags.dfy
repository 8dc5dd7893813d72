/** The tag service: the shared localized catalog over the `tag` tables, with the
    question links a delete clears. */
module Tags {
  import opened Wrappers
  import opened Common
  import opened Localization
  import opened Store
  import Catalog

  /** The message of the `IllegalArgumentException` an update of an unknown id throws. */
  const NotFoundMessage: string := "tag not found"

  /** `create(userName, locale, tag)`: only the tag tables change. A taken id writes
      nothing and fails; an overlay already under (id, locale) fails after the base row went
      in; otherwise the tag reads back as created, stamped with its creator. */
  function Create(db: Db, user: string, locale: Option<Locale>, e: Catalog.Entity): (r: (Db, Result<Catalog.Entity, Error>))
    ensures r.0 == db.(tags := r.0.tags)
    ensures r.1.Failure? <==> e.id in db.tags.rows || (locale.Some? && (e.id, locale.value) in db.tags.titles)
    ensures e.id in db.tags.rows ==> r.0 == db
    ensures e.id !in db.tags.rows ==> Catalog.Read(r.0.tags, e.id, None) == Some(e.(createdBy := Some(user)))
    ensures r.1.Success? ==>
      && r.1.value == e.(createdBy := Some(user))
      && Catalog.Read(r.0.tags, e.id, locale) == Some(r.1.value)
  {
    var (c, res) := Catalog.Create(db.tags, user, locale, e);
    (db.(tags := c), res)
  }

  /** `read(userName, id, locale)`: the base row, its title resolved for the locale. */
  function Read(db: Db, user: string, id: string, locale: Option<Locale>): (r: Option<Catalog.Entity>)
    ensures r.None? <==> id !in db.tags.rows
    ensures r.Some? && locale.Some? && (id, locale.value) in db.tags.titles ==>
      r.value.title == db.tags.titles[(id, locale.value)]
    ensures r.Some? && (locale.None? || (id, locale.value) !in db.tags.titles) ==>
      r.value == db.tags.rows[id]
  {
    Catalog.Read(db.tags, id, locale)
  }

  /** `update(id, userName, locale, tag)`: an unknown id fails with "tag not found" and
      writes nothing; otherwise the tag reads back with the new title in the locale
      written, and under a locale the base title stays. */
  function Update(db: Db, id: string, user: string, locale: Option<Locale>, e: Catalog.Entity): (r: Result<(Db, Catalog.Entity), Error>)
    ensures r.Failure? <==> id !in db.tags.rows
    ensures r.Failure? ==> r.error == NotFound(NotFoundMessage)
    ensures r.Success? ==>
      && r.value.0 == db.(tags := r.value.0.tags)
      && r.value.1.title == e.title
      && Read(r.value.0, user, id, locale) == Some(r.value.1)
      && (locale.Some? ==> Read(r.value.0, user, id, None).value.title == db.tags.rows[id].title)
  {
    var (c, got) :- Catalog.Update(db.tags, id, user, locale, e, NotFoundMessage);
    Success((db.(tags := c), got))
  }

  /** `list(userName, locale)`: every tag without a locale; with one, only those with
      no overlay at all or one for that locale. */
  function List(db: Db, user: string, locale: Option<Locale>): (r: set<Catalog.Entity>)
    ensures locale.None? ==> r == db.tags.rows.Values
    ensures forall e :: e in r ==> exists k :: k in db.tags.rows && Read(db, user, k, locale) == Some(e)
  {
    Catalog.List(db.tags, locale)
  }

  /** A localized list shows a tag exactly when it has no overlay at all or one for the
      requested locale. */
  lemma ListIff(db: Db, user: string, l: Locale, k: string)
    requires Catalog.WellKeyed(db.tags) && k in db.tags.rows
    ensures (exists e :: e in List(db, user, Some(l)) && e.id == k) <==>
      ((forall m :: (k, m) !in db.tags.titles) || (k, l) in db.tags.titles)
  {
    Catalog.ListMembership(db.tags, l, k);
  }

  /** `delete(userName, id)`: the question links to the tag, then its overlays, then
      its row; true iff the row existed. Nothing else changes, and afterwards the tag
      reads as absent and no question is linked to it. */
  function Delete(db: Db, user: string, id: string): (r: (Db, bool))
    ensures r.1 <==> id in db.tags.rows
    ensures r.0 == db.(tags := r.0.tags, questionTags := r.0.questionTags)
    ensures forall p :: p in r.0.questionTags <==> p in db.questionTags && p.1 != id
    ensures forall k, l :: k in db.tags.rows && k != id ==> Read(r.0, user, k, l) == Read(db, user, k, l)
    ensures forall l :: Read(r.0, user, id, l) == None
  {
    var (c, kept, existed) := Catalog.Delete(db.tags, db.questionTags, id);
    (db.(tags := c, questionTags := kept), existed)
  }
}
