/** Locale resolution. Every localized read joins a base row with its overlay rows (one per
    locale) and picks, column by column, the overlay's value for exactly the requested
    locale when such an overlay exists, and the base value otherwise. */
module Localization {
  import opened Wrappers

  /** The language tag a `java.util.Locale` contributes to a query (`getLanguage()`). */
  type Locale = string

  /** The locales for which `key` has an overlay row. */
  function LocalesOf<K(==), T>(overlays: map<(K, Locale), T>, key: K): (r: set<Locale>)
    ensures forall l :: l in r <==> (key, l) in overlays
  {
    set k | k in overlays && k.0 == key :: k.1
  }

  /** The effective row for an optional requested locale. */
  function Resolve<K(==), B, T>(base: B, key: K, overlays: map<(K, Locale), T>,
                            locale: Option<Locale>, apply: (B, T) -> B): B
  {
    match locale
    case None => base
    case Some(l) => if (key, l) in overlays then apply(base, overlays[(key, l)]) else base
  }

  /** The joined rows a localized single-row read keeps. `base LEFT JOIN overlay` yields one
      row per overlay locale of the key (or one row with a NULL locale when it has none);
      the filter `LOCALE IS NULL OR LOCALE = ? OR id NOT IN (overlays WHERE LOCALE = ?)`
      keeps overlay locale `l` when it is the wanted one or the key has no overlay for
      the wanted one. */
  function JoinedLocales<K(==), T>(overlays: map<(K, Locale), T>, key: K, wanted: Locale): set<Locale>
  {
    set l | l in LocalesOf(overlays, key) && (l == wanted || (key, wanted) !in overlays)
  }

  /** The columns of one joined row: `CASE WHEN LOCALE = ? THEN overlay.col ELSE base.col END`;
      `joined` is the row's overlay locale, `None` for the NULL row. */
  function Project<K(==), B, T>(base: B, key: K, overlays: map<(K, Locale), T>, wanted: Locale,
                            joined: Option<Locale>, apply: (B, T) -> B): B
  {
    if joined == Some(wanted) && (key, wanted) in overlays
    then apply(base, overlays[(key, wanted)]) else base
  }

  /** How many rows the localized read returns for one base row. */
  function JoinCount<K(==), T>(overlays: map<(K, Locale), T>, key: K, wanted: Locale): nat
  {
    if LocalesOf(overlays, key) == {} then 1 else |JoinedLocales(overlays, key, wanted)|
  }

  /** Every row the localized query keeps carries the resolved text: the overlay for exactly
      the wanted locale when there is one, otherwise the base text, whatever overlays exist
      for other locales. */
  lemma JoinedRowsResolve<K, B, T>(base: B, key: K, overlays: map<(K, Locale), T>,
                                   wanted: Locale, apply: (B, T) -> B)
    ensures LocalesOf(overlays, key) == {} ==>
      Project(base, key, overlays, wanted, None, apply)
        == Resolve(base, key, overlays, Some(wanted), apply) == base
    ensures forall l :: l in JoinedLocales(overlays, key, wanted) ==>
      Project(base, key, overlays, wanted, Some(l), apply)
        == Resolve(base, key, overlays, Some(wanted), apply)
    ensures (key, wanted) !in overlays ==> Resolve(base, key, overlays, Some(wanted), apply) == base
  {
  }

  /** The localized query returns one row when the key has an overlay for the wanted locale
      or none at all, and otherwise one row per overlay locale it has. */
  lemma JoinCountValue<K, T>(overlays: map<(K, Locale), T>, key: K, wanted: Locale)
    ensures (key, wanted) in overlays || LocalesOf(overlays, key) == {} ==>
      JoinCount(overlays, key, wanted) == 1
    ensures (key, wanted) !in overlays ==>
      JoinCount(overlays, key, wanted) == if LocalesOf(overlays, key) == {} then 1 else |LocalesOf(overlays, key)|
  {
    var ls := LocalesOf(overlays, key);
    if (key, wanted) in overlays {
      assert JoinedLocales(overlays, key, wanted) == {wanted};
    } else {
      assert JoinedLocales(overlays, key, wanted) == ls;
    }
  }

  /** The rows of one base row in a localized read without DISTINCT: `JoinCount` copies of
      the resolved row. */
  function JoinRows<K(==), B, T>(base: B, key: K, overlays: map<(K, Locale), T>, wanted: Locale,
                             apply: (B, T) -> B): (r: seq<B>)
    ensures |r| == JoinCount(overlays, key, wanted) >= 1
    ensures forall i :: 0 <= i < |r| ==> r[i] == Resolve(base, key, overlays, Some(wanted), apply)
  {
    JoinCountValue(overlays, key, wanted);
    seq(JoinCount(overlays, key, wanted), _ => Resolve(base, key, overlays, Some(wanted), apply))
  }

  /** Two overlay tables that hold the same rows for `key`. */
  ghost predicate AgreeOn<K, T>(a: map<(K, Locale), T>, b: map<(K, Locale), T>, key: K) {
    forall l :: ((key, l) in a <==> (key, l) in b) && ((key, l) in a ==> a[(key, l)] == b[(key, l)])
  }

  /** What a localized read returns for a key depends only on that key's overlay rows. */
  lemma AgreeingJoin<K, B, T>(base: B, key: K, a: map<(K, Locale), T>, b: map<(K, Locale), T>,
                              locale: Option<Locale>, apply: (B, T) -> B)
    requires AgreeOn(a, b, key)
    ensures Resolve(base, key, a, locale, apply) == Resolve(base, key, b, locale, apply)
    ensures locale.Some? ==> JoinRows(base, key, a, locale.value, apply) == JoinRows(base, key, b, locale.value, apply)
  {
    assert LocalesOf(a, key) == LocalesOf(b, key);
    if locale.Some? {
      assert JoinedLocales(a, key, locale.value) == JoinedLocales(b, key, locale.value);
    }
  }

  /** The joined locales a list query keeps when its filter is only
      `LOCALE IS NULL OR LOCALE = ?` (no fallback clause). */
  function ListedLocales<K(==), T>(overlays: map<(K, Locale), T>, key: K, wanted: Locale): set<Locale>
  {
    set l | l in LocalesOf(overlays, key) && l == wanted
  }

  /** Whether such a list query returns the key at all: through its NULL row or a kept locale. */
  predicate Listed<K(==), T>(overlays: map<(K, Locale), T>, key: K, wanted: Locale)
  {
    LocalesOf(overlays, key) == {} || ListedLocales(overlays, key, wanted) != {}
  }

  /** The list filter keeps a key iff it has no overlay at all or one for the wanted locale;
      a key localized only in other locales is dropped. */
  lemma ListedIff<K, T>(overlays: map<(K, Locale), T>, key: K, wanted: Locale)
    ensures Listed(overlays, key, wanted) <==>
      ((forall l :: (key, l) !in overlays) || (key, wanted) in overlays)
  {
    if (key, wanted) in overlays {
      assert wanted in ListedLocales(overlays, key, wanted);
    } else if !(forall l :: (key, l) !in overlays) {
      var l :| (key, l) in overlays;
      assert l in LocalesOf(overlays, key);
    }
  }

  /** Whatever the list filter keeps is the resolved row. */
  lemma ListedRowsResolve<K, B, T>(base: B, key: K, overlays: map<(K, Locale), T>,
                                   wanted: Locale, apply: (B, T) -> B)
    ensures forall l :: l in ListedLocales(overlays, key, wanted) ==>
      Project(base, key, overlays, wanted, Some(l), apply)
        == Resolve(base, key, overlays, Some(wanted), apply)
  {
  }

  /** Removing every overlay row of the keys satisfying `gone`. */
  function DropKeys<K(==,!new), T>(overlays: map<(K, Locale), T>, gone: set<K>): (r: map<(K, Locale), T>)
    ensures forall k :: k in r <==> k in overlays && k.0 !in gone
    ensures forall k :: k in r ==> r[k] == overlays[k]
  {
    map k | k in overlays && k.0 !in gone :: overlays[k]
  }
}
