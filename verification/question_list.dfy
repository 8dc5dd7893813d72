/** Listing the questions filed under every one of a list of categories, in id order, each
    with its choices filled in; the answer column is hidden from everyone but the owner. */
module QuestionList {
  import opened Wrappers
  import opened Common
  import opened Ids
  import opened Localization
  import opened Store
  import opened QuestionRead

  /** `OWNER_USER`: the one user a listing shows answers to. */
  const OwnerUser: string := "tom"

  /** The distinct requested categories question `q` is linked to. */
  function LinkedCategories(links: set<(Id, string)>, q: Id, cats: seq<string>): set<string> {
    set c | c in cats && (q, c) in links
  }

  /** Question `q` is linked to every requested category. */
  predicate AllLinked(links: set<(Id, string)>, q: Id, cats: seq<string>) {
    forall c :: c in cats ==> (q, c) in links
  }

  /** `getQuestionIdFilter(categories)` as written: the links to requested categories,
      grouped by question, keeping each group whose distinct category count equals the
      length of the list (`category.size()`). */
  function IdFilter(links: set<(Id, string)>, cats: seq<string>): set<Id> {
    set p | p in links && p.1 in cats && |LinkedCategories(links, p.0, cats)| == |cats| :: p.0
  }

  /** The filter with the count compared to the number of distinct requested categories. */
  function IntendedIdFilter(links: set<(Id, string)>, cats: seq<string>): set<Id> {
    set p | p in links && p.1 in cats && |LinkedCategories(links, p.0, cats)| == |set c | c in cats| :: p.0
  }

  /** The intended filter keeps exactly the questions linked to every requested category,
      and nothing for an empty list. */
  lemma IntendedFilterIff(links: set<(Id, string)>, cats: seq<string>, q: Id)
    ensures q in IntendedIdFilter(links, cats) <==> cats != [] && AllLinked(links, q, cats)
  {
    var all := set c | c in cats;
    var linked := LinkedCategories(links, q, cats);
    if cats != [] && AllLinked(links, q, cats) {
      assert linked == all;
      assert (q, cats[0]) in links;
    }
    if q in IntendedIdFilter(links, cats) {
      var p :| p in links && p.1 in cats && |LinkedCategories(links, p.0, cats)| == |all| && p.0 == q;
      SameSizeSubset(linked, all);
      forall c | c in cats
        ensures (q, c) in links
      {
        assert c in all;
      }
    }
  }

  /** Without repeated categories the filter as written is the intended one. */
  lemma FilterDistinct(links: set<(Id, string)>, cats: seq<string>)
    requires Distinct(cats)
    ensures IdFilter(links, cats) == IntendedIdFilter(links, cats)
  {
    DistinctCount(cats);
  }

  /** With a repeated category the filter as written keeps nothing: no question can be
      linked to more distinct categories than the list holds. */
  lemma DuplicateCategoriesListNothing(links: set<(Id, string)>, cats: seq<string>)
    requires !Distinct(cats)
    ensures IdFilter(links, cats) == {}
  {
    DistinctCount(cats);
    forall q
      ensures |LinkedCategories(links, q, cats)| < |cats|
    {
      SubsetSize(LinkedCategories(links, q, cats), set c | c in cats);
    }
  }

  /** The questions a filter selects, in id order (`order by id`). */
  function ListedIds(db: Db, filter: set<Id>): (r: seq<Id>)
    ensures forall q :: q in r <==> q in db.questions && q in filter
    ensures StrictlySorted(r)
  {
    SortIds(set q | q in db.questions && q in filter)
  }

  /** The header of one listed question: the resolved row, its answer NULL unless the
      caller is the owner. */
  function Header(db: Db, q: Id, isOwner: bool, locale: Option<Locale>): (v: QuestionView)
    requires q in db.questions
    ensures v.answer == (if isOwner then db.questions[q].answer else None)
    ensures v.id == db.questions[q].id && v.qtype == db.questions[q].qtype
    ensures locale.Some? && (q, locale.value) in db.questionTexts ==>
      v.text == db.questionTexts[(q, locale.value)].text
    ensures locale.None? || (q, locale.value) !in db.questionTexts ==> v.text == db.questions[q].text
  {
    var v := ViewOf(ResolvedQuestion(db, q, locale));
    if isOwner then v else v.(answer := None)
  }

  /** `fillChoices` over the listed questions in order, with the answer flags shown or not;
      the first failure ends the listing. */
  function FillAll(db: Db, ids: seq<Id>, isOwner: bool, shown: bool, locale: Option<Locale>): (r: Result<seq<QuestionView>, Error>)
    requires forall i :: 0 <= i < |ids| ==> ids[i] in db.questions
    ensures r.Failure? <==>
      exists i :: 0 <= i < |ids| && FillChoicesAs(db, shown, locale, Header(db, ids[i], isOwner, locale)).Failure?
    ensures r.Success? ==> |r.value| == |ids|
    ensures r.Success? ==> forall i :: 0 <= i < |ids| ==>
      Success(r.value[i]) == FillChoicesAs(db, shown, locale, Header(db, ids[i], isOwner, locale))
  {
    if ids == [] then Success([])
    else
      assert forall i :: 1 <= i < |ids| ==> ids[i] == ids[1..][i - 1];
      var v :- FillChoicesAs(db, shown, locale, Header(db, ids[0], isOwner, locale));
      var rest :- FillAll(db, ids[1..], isOwner, shown, locale);
      Success([v] + rest)
  }

  /** `list(userName, locale, categories)` as written: the choices' answer flags are filled
      in for every caller. */
  function List(db: Db, user: string, locale: Option<Locale>, cats: seq<string>): (r: Result<seq<QuestionView>, Error>)
    ensures cats == [] ==> r == Success([])
    ensures var ids := ListedIds(db, IdFilter(db.questionCategories, cats));
      r.Failure? <==> exists i ::
        0 <= i < |ids| && FillChoicesAs(db, true, locale, Header(db, ids[i], user == OwnerUser, locale)).Failure?
    ensures var ids := ListedIds(db, IdFilter(db.questionCategories, cats));
      r.Success? ==> |r.value| == |ids|
    ensures var ids := ListedIds(db, IdFilter(db.questionCategories, cats));
      r.Success? ==> forall i :: 0 <= i < |r.value| ==>
        r.value[i] == Header(db, ids[i], user == OwnerUser, locale).(
          choices := r.value[i].choices, matches := r.value[i].matches)
  {
    var ids := ListedIds(db, IdFilter(db.questionCategories, cats));
    assert cats == [] ==> IdFilter(db.questionCategories, cats) == {};
    FillAll(db, ids, user == OwnerUser, true, locale)
  }

  /** `list` as evidently intended: the filter counts distinct requested categories, and
      the choices' answer flags are hidden from everyone but the owner. */
  function IntendedList(db: Db, user: string, locale: Option<Locale>, cats: seq<string>): (r: Result<seq<QuestionView>, Error>)
    ensures var ids := ListedIds(db, IntendedIdFilter(db.questionCategories, cats));
      r.Success? ==> |r.value| == |ids| && forall i :: 0 <= i < |ids| ==>
        r.value[i] == Header(db, ids[i], user == OwnerUser, locale).(
          choices := r.value[i].choices, matches := r.value[i].matches)
  {
    var isOwner := user == OwnerUser;
    FillAll(db, ListedIds(db, IntendedIdFilter(db.questionCategories, cats)), isOwner, isOwner, locale)
  }

  /** The ids of some views, in order. The same projection as `Store.IdsOf` over question
      views instead of choice rows; the two types share no field access, so a single
      generic projection would need the id accessor passed in. */
  function ViewIds(vs: seq<QuestionView>): (r: seq<Id>)
    ensures |r| == |vs| && forall i :: 0 <= i < |vs| ==> r[i] == vs[i].id
  {
    seq(|vs|, i requires 0 <= i < |vs| => vs[i].id)
  }

  /** A listing without repeated categories holds exactly the questions linked to every
      requested category, once each, in ascending id order. */
  lemma ListExactly(db: Db, user: string, locale: Option<Locale>, cats: seq<string>)
    requires Keyed(db) && Distinct(cats)
    ensures var r := List(db, user, locale, cats);
      r.Success? ==>
        && StrictlySorted(ViewIds(r.value))
        && forall q :: q in ViewIds(r.value) <==>
             q in db.questions && cats != [] && AllLinked(db.questionCategories, q, cats)
  {
    var r := List(db, user, locale, cats);
    FilterDistinct(db.questionCategories, cats);
    if r.Success? {
      ListedViewIds(db, ListedIds(db, IdFilter(db.questionCategories, cats)), r.value, user == OwnerUser, locale);
      IntendedListedIds(db, cats);
    }
  }

  /** The questions the intended filter selects are those linked to every requested
      category, in id order. */
  lemma IntendedListedIds(db: Db, cats: seq<string>)
    ensures var ids := ListedIds(db, IntendedIdFilter(db.questionCategories, cats));
      forall q :: q in ids <==> q in db.questions && cats != [] && AllLinked(db.questionCategories, q, cats)
  {
    var ids := ListedIds(db, IntendedIdFilter(db.questionCategories, cats));
    forall q
      ensures q in ids <==> q in db.questions && cats != [] && AllLinked(db.questionCategories, q, cats)
    {
      IntendedFilterIff(db.questionCategories, cats, q);
    }
  }

  /** Views whose headers are those of the listed ids carry those ids, in order. */
  lemma ListedViewIds(db: Db, ids: seq<Id>, vs: seq<QuestionView>, isOwner: bool, locale: Option<Locale>)
    requires Keyed(db) && forall i :: 0 <= i < |ids| ==> ids[i] in db.questions
    requires |vs| == |ids| && forall i :: 0 <= i < |ids| ==>
      vs[i] == Header(db, ids[i], isOwner, locale).(choices := vs[i].choices, matches := vs[i].matches)
    ensures ViewIds(vs) == ids
  {
  }

  /** The intended listing holds exactly the questions linked to every requested category,
      repeated categories or not. */
  lemma IntendedListExactly(db: Db, user: string, locale: Option<Locale>, cats: seq<string>)
    requires Keyed(db)
    ensures var r := IntendedList(db, user, locale, cats);
      r.Success? ==>
        && StrictlySorted(ViewIds(r.value))
        && forall q :: q in ViewIds(r.value) <==>
             q in db.questions && cats != [] && AllLinked(db.questionCategories, q, cats)
  {
    var r := IntendedList(db, user, locale, cats);
    if r.Success? {
      ListedViewIds(db, ListedIds(db, IntendedIdFilter(db.questionCategories, cats)), r.value, user == OwnerUser, locale);
      IntendedListedIds(db, cats);
    }
  }

  /** Under a caller other than the owner, a listed CHOOSE_THE_BEST or MULTI_CHOICE question
      comes back with its answer hidden but its choice rows, answer flags included, as
      stored. */
  lemma ListShowsFlags(db: Db, user: string, cats: seq<string>, i: nat)
    requires user != OwnerUser
    requires List(db, user, None, cats).Success?
    requires i < |List(db, user, None, cats).value|
    ensures var ids := ListedIds(db, IdFilter(db.questionCategories, cats));
      var v := List(db, user, None, cats).value[i];
      var q := ids[i];
      && v.answer == None
      && (db.questions[q].qtype == ChooseTheBest || db.questions[q].qtype == MultiChoice ==>
            v.choices == Some(RowsOf(db.choices, db.questions[q].id)))
  {
    var ids := ListedIds(db, IdFilter(db.questionCategories, cats));
    var q := ids[i];
    var rows := RowsOf(db.choices, db.questions[q].id);
    assert ListRows(rows, db.choiceTexts, true, None) == rows;
  }

  /** Every row of a listing made for someone else has its answer flag NULL. */
  lemma {:induction false} ListRowsMasked(rows: seq<ChoiceRow>, texts: map<(Id, Locale), string>, locale: Option<Locale>)
    ensures forall x :: x in ListRows(rows, texts, false, locale) ==> x.isAnswer.None?
  {
    if rows != [] {
      ListRowsMasked(rows[1..], texts, locale);
    }
  }

  /** Filling a question for someone other than the owner leaves every answer flag NULL. */
  lemma FillHidesFlags(db: Db, locale: Option<Locale>, h: QuestionView)
    requires h.choices.None? && h.matches.None?
    ensures var r := FillChoicesAs(db, false, locale, h);
      r.Success? ==>
        && (r.value.choices.Some? ==> forall x :: x in r.value.choices.value ==> x.isAnswer.None?)
        && (r.value.matches.Some? ==> forall x :: x in r.value.matches.value ==> x.isAnswer.None?)
  {
    ListRowsMasked(RowsOf(db.choices, h.id), db.choiceTexts, locale);
  }

  /** In the intended listing a caller other than the owner sees no answer: neither the
      answer column nor any choice's or match's answer flag. */
  lemma IntendedListHidesFlags(db: Db, user: string, locale: Option<Locale>, cats: seq<string>)
    requires user != OwnerUser
    ensures var r := IntendedList(db, user, locale, cats);
      r.Success? ==> forall v :: v in r.value ==>
        && v.answer == None
        && (v.choices.Some? ==> forall x :: x in v.choices.value ==> x.isAnswer.None?)
        && (v.matches.Some? ==> forall x :: x in v.matches.value ==> x.isAnswer.None?)
  {
    var r := IntendedList(db, user, locale, cats);
    var ids := ListedIds(db, IntendedIdFilter(db.questionCategories, cats));
    if r.Success? {
      forall v | v in r.value
        ensures v.answer == None
        ensures v.choices.Some? ==> forall x :: x in v.choices.value ==> x.isAnswer.None?
        ensures v.matches.Some? ==> forall x :: x in v.matches.value ==> x.isAnswer.None?
      {
        var i :| 0 <= i < |r.value| && r.value[i] == v;
        var h := Header(db, ids[i], false, locale);
        assert Success(v) == FillChoicesAs(db, false, locale, h);
        FillHidesFlags(db, locale, h);
      }
    }
  }
}
