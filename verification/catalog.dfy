/** A localized catalog: the behaviour Category and Tag share. Base rows are keyed by the
    caller-chosen id; overlay rows carry a title per (id, locale); question links pair a
    question id with a catalog id. */
module Catalog {
  import opened Wrappers
  import opened Common
  import opened Ids
  import opened Localization

  datatype Entity = Entity(
    id: string,
    title: string,
    createdAt: Option<Stamp>,
    createdBy: Option<string>,
    modifiedAt: Option<Stamp>,
    modifiedBy: Option<string>)

  datatype Catalog = Catalog(rows: map<string, Entity>, titles: map<(string, Locale), string>)

  /** Every base row sits under its own id. */
  predicate WellKeyed(c: Catalog) {
    forall k :: k in c.rows ==> c.rows[k].id == k
  }

  function WithTitle(e: Entity, title: string): Entity {
    e.(title := title)
  }

  /** The row a read returns for `id`: the base row, its title resolved for the locale. */
  function Resolved(c: Catalog, id: string, locale: Option<Locale>): Entity
    requires id in c.rows
  {
    Resolve(c.rows[id], id, c.titles, locale, WithTitle)
  }

  /** `read(userName, id, locale)`. Without a locale the base row; with one the DISTINCT rows
      of the localized join, which all carry the resolved title and so collapse to one. */
  function Read(c: Catalog, id: string, locale: Option<Locale>): (r: Option<Entity>)
    ensures r.None? <==> id !in c.rows
    ensures locale.None? && id in c.rows ==> r == Some(c.rows[id])
    ensures locale.Some? && id in c.rows ==>
      && r.Some?
      && r.value == c.rows[id].(title := r.value.title)
      && r.value.title == (if (id, locale.value) in c.titles then c.titles[(id, locale.value)]
                           else c.rows[id].title)
  {
    if id !in c.rows then None
    else Some(Resolved(c, id, locale))
  }

  /** `create(userName, locale, entity)`: stamps the creator, inserts the base row and, under
      a locale, an overlay with the same title; then reads the row back. A base row with the
      same id already present is a primary-key violation and nothing is written. An overlay
      already stored under (id, locale) makes the overlay insert fail after the base row went
      in, and that row stays. */
  function Create(c: Catalog, user: string, locale: Option<Locale>, e: Entity): (r: (Catalog, Result<Entity, Error>))
    ensures r.1.Failure? <==> e.id in c.rows || (locale.Some? && (e.id, locale.value) in c.titles)
    ensures r.1.Failure? ==> r.1.error == SqlError && r.0.titles == c.titles
    ensures e.id in c.rows ==> r.0 == c
    ensures e.id !in c.rows ==> r.0.rows == c.rows[e.id := e.(createdBy := Some(user))]
    ensures r.1.Success? ==>
      && (locale.None? ==> r.0.titles == c.titles)
      && (locale.Some? ==> r.0.titles == c.titles[(e.id, locale.value) := e.title])
      && r.1.value == e.(createdBy := Some(user))
      && Read(r.0, e.id, locale) == Some(r.1.value)
  {
    if e.id in c.rows then (c, Failure(SqlError))
    else
      var based := c.(rows := c.rows[e.id := e.(createdBy := Some(user))]);
      if locale.Some? && (e.id, locale.value) in c.titles then (based, Failure(SqlError))
      else
        var c' := if locale.Some? then based.(titles := c.titles[(e.id, locale.value) := e.title]) else based;
        (c', Success(Read(c', e.id, locale).value))
  }

  /** An overlay left under an id with no base row makes a create under its locale fail
      after inserting the base row, which then reads back under the base title. */
  lemma CreateOverOrphanOverlay()
    ensures var c := Catalog(map[], map[("c1", "de") := "Alt"]);
      var e := Entity("c1", "Neu", None, None, None, None);
      var r := Create(c, "tom", Some("de"), e);
      && r.1 == Failure(SqlError)
      && Read(r.0, "c1", None) == Some(e.(createdBy := Some("tom")))
      && Read(r.0, "c1", Some("de")).value.title == "Alt"
  {
  }

  /** `update(id, userName, locale, entity)`. Without a locale the base title and modifier are
      overwritten. With one only the modifier of the base row changes, and the overlay title
      for the locale is updated or, when missing, inserted. An unknown id touches nothing and
      fails with `notFound`. The updated row is read back. */
  function Update(c: Catalog, id: string, user: string, locale: Option<Locale>, e: Entity,
                  notFound: string): (r: Result<(Catalog, Entity), Error>)
    ensures r.Failure? <==> id !in c.rows
    ensures r.Failure? ==> r.error == NotFound(notFound)
    ensures r.Success? ==>
      var (c', got) := r.value;
      && c'.rows.Keys == c.rows.Keys
      && (forall k :: k in c.rows && k != id ==> c'.rows[k] == c.rows[k])
      && c'.rows[id] == c.rows[id].(title := c'.rows[id].title, modifiedBy := Some(user))
      && (locale.None? ==> c'.rows[id].title == e.title && c'.titles == c.titles)
      && (locale.Some? ==> c'.rows[id].title == c.rows[id].title
                           && c'.titles == c.titles[(id, locale.value) := e.title])
      && got.title == e.title
      && Read(c', id, locale) == Some(got)
  {
    if id !in c.rows then Failure(NotFound(notFound))
    else
      var c' := match locale
        case None => c.(rows := c.rows[id := c.rows[id].(title := e.title, modifiedBy := Some(user))])
        case Some(l) =>
          Catalog(c.rows[id := c.rows[id].(modifiedBy := Some(user))], c.titles[(id, l) := e.title]);
      Success((c', Read(c', id, locale).value))
  }

  /** `list(userName, locale)`: every base row without a locale; with one, the DISTINCT rows
      of a join filtered only by `LOCALE IS NULL OR LOCALE = ?`. SQL gives no order, so the
      model returns a set. */
  function List(c: Catalog, locale: Option<Locale>): (r: set<Entity>)
    ensures locale.None? ==> r == c.rows.Values
    ensures locale.Some? ==>
      forall k :: k in c.rows ==>
        (Listed(c.titles, k, locale.value) ==> Resolved(c, k, locale) in r)
  {
    match locale
    case None => c.rows.Values
    case Some(l) => set k | k in c.rows && Listed(c.titles, k, l) :: Resolved(c, k, locale)
  }

  /** A localized list keeps exactly the entities with no overlay at all or one for the
      requested locale; one localized only in other locales is missing from it. */
  lemma ListMembership(c: Catalog, l: Locale, k: string)
    requires WellKeyed(c) && k in c.rows
    ensures (exists e :: e in List(c, Some(l)) && e.id == k) <==>
      ((forall m :: (k, m) !in c.titles) || (k, l) in c.titles)
  {
    ListedIff(c.titles, k, l);
    if Listed(c.titles, k, l) {
      assert Resolved(c, k, Some(l)) in List(c, Some(l));
    }
  }

  /** `delete(userName, id)`: question links first, then overlays, then the base row; true iff
      exactly one base row went. */
  function Delete<Q(==)>(c: Catalog, links: set<(Q, string)>, id: string): (r: (Catalog, set<(Q, string)>, bool))
    ensures r.2 <==> id in c.rows
    ensures r.0.rows == c.rows - {id}
    ensures forall k :: k in r.0.titles <==> k in c.titles && k.0 != id
    ensures forall k :: k in r.0.titles ==> r.0.titles[k] == c.titles[k]
    ensures r.1 == set p | p in links && p.1 != id
  {
    (Catalog(c.rows - {id}, DropKeys(c.titles, {id})), (set p | p in links && p.1 != id), id in c.rows)
  }

  /** A localized list with the fallback every localized read has: every entity, its
      title resolved for the locale. */
  function ListWithFallback(c: Catalog, locale: Option<Locale>): (r: set<Entity>)
    ensures forall k :: k in c.rows ==> Read(c, k, locale).value in r
    ensures WellKeyed(c) ==> forall e :: e in r ==> e.id in c.rows
  {
    set k | k in c.rows :: Resolved(c, k, locale)
  }

  /** The list with the fallback holds every entity, whatever its overlays. */
  lemma FallbackListMembership(c: Catalog, l: Locale, k: string)
    requires WellKeyed(c) && k in c.rows
    ensures exists e :: e in ListWithFallback(c, Some(l)) && e.id == k
  {
    assert Resolved(c, k, Some(l)) in ListWithFallback(c, Some(l));
  }

  /** One category localized only in French, listed in German: the list as written is
      empty although a read in German returns the category under its base title. */
  lemma ListDropsOtherLocales()
    ensures var c := Catalog(map["c1" := Entity("c1", "Base", None, None, None, None)], map[("c1", "fr") := "Titre"]);
      && List(c, Some("de")) == {}
      && Read(c, "c1", Some("de")) == Some(Entity("c1", "Base", None, None, None, None))
      && ListWithFallback(c, Some("de")) == {Entity("c1", "Base", None, None, None, None)}
  {
    var c := Catalog(map["c1" := Entity("c1", "Base", None, None, None, None)], map[("c1", "fr") := "Titre"]);
    ListedIff(c.titles, "c1", "de");
    assert ("c1", "fr") in c.titles;
  }

  /** An update under one locale changes nothing another locale reads but the modifier. */
  lemma UpdateKeepsOtherLocales(c: Catalog, id: string, user: string, l: Locale, e: Entity,
                                notFound: string, m: Option<Locale>)
    requires id in c.rows && m != Some(l)
    ensures var c' := Update(c, id, user, Some(l), e, notFound).value.0;
      Read(c', id, m) == Some(Read(c, id, m).value.(modifiedBy := Some(user)))
  {
  }

  /** After a delete the entity reads as absent in every locale. */
  lemma DeleteThenRead<Q>(c: Catalog, links: set<(Q, string)>, id: string, locale: Option<Locale>)
    ensures Read(Delete(c, links, id).0, id, locale) == None
    ensures forall p :: p in Delete(c, links, id).1 ==> p.1 != id
  {
  }
}
