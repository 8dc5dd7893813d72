/** Reading a question: the base row resolved for the locale, then its choices (and, for
    MATCH_THE_FOLLOWING, its matches rebuilt from the pair rows). */
module QuestionRead {
  import opened Wrappers
  import opened Common
  import opened Ids
  import opened Localization
  import opened Store

  function WithText(r: QuestionRow, t: QuestionText): QuestionRow {
    r.(text := t.text, explanation := t.explanation)
  }

  function WithValue(r: ChoiceRow, v: string): ChoiceRow {
    r.(cValue := v)
  }

  /** The `is_answer` column: the flag for the owner, NULL for anyone else. */
  function Mask(r: ChoiceRow, isOwner: bool): ChoiceRow {
    if isOwner then r else r.(isAnswer := None)
  }

  /** A choice row with its value resolved for the locale. */
  function ResolvedChoice(r: ChoiceRow, texts: map<(Id, Locale), string>, locale: Option<Locale>): ChoiceRow {
    Resolve(r, r.id, texts, locale, WithValue)
  }

  /** The rows `listChoices` returns for one stored choice row: the row itself without a
      locale, the joined rows of the localized query with one. */
  function RowsFor(r: ChoiceRow, texts: map<(Id, Locale), string>, isOwner: bool,
                   locale: Option<Locale>): (out: seq<ChoiceRow>)
    ensures |out| >= 1
    ensures forall i :: 0 <= i < |out| ==> out[i] == Mask(ResolvedChoice(r, texts, locale), isOwner)
    ensures locale.None? ==> out == [Mask(r, isOwner)]
    ensures locale.Some? ==> |out| == JoinCount(texts, r.id, locale.value)
  {
    match locale
    case None => [Mask(r, isOwner)]
    case Some(l) =>
      var joined := JoinRows(r, r.id, texts, l, WithValue);
      seq(|joined|, i requires 0 <= i < |joined| => Mask(joined[i], isOwner))
  }

  /** `listChoices(isOwner, questionId, locale)` over the question's rows in table order. */
  function ListRows(rows: seq<ChoiceRow>, texts: map<(Id, Locale), string>, isOwner: bool,
                    locale: Option<Locale>): (out: seq<ChoiceRow>)
    ensures locale.None? ==> |out| == |rows| && forall i :: 0 <= i < |rows| ==> out[i] == Mask(rows[i], isOwner)
    ensures |out| >= |rows|
  {
    if rows == [] then [] else RowsFor(rows[0], texts, isOwner, locale) + ListRows(rows[1..], texts, isOwner, locale)
  }

  function ListChoices(db: Db, isOwner: bool, qid: Id, locale: Option<Locale>): seq<ChoiceRow> {
    ListRows(RowsOf(db.choices, qid), db.choiceTexts, isOwner, locale)
  }

  /** Each row resolved once, which is what the listing gives when no choice is localized
      in a locale other than the requested one. */
  function ResolvedRows(rows: seq<ChoiceRow>, texts: map<(Id, Locale), string>, isOwner: bool,
                        locale: Option<Locale>): (out: seq<ChoiceRow>)
    ensures |out| == |rows|
    ensures forall i :: 0 <= i < |rows| ==> out[i] == Mask(ResolvedChoice(rows[i], texts, locale), isOwner)
  {
    seq(|rows|, i requires 0 <= i < |rows| => Mask(ResolvedChoice(rows[i], texts, locale), isOwner))
  }

  /** No row has an overlay in a locale other than the requested one. */
  ghost predicate OnlyLocale(rows: seq<ChoiceRow>, texts: map<(Id, Locale), string>, l: Locale) {
    forall i, m :: 0 <= i < |rows| && (rows[i].id, m) in texts ==> m == l
  }

  /** Without a locale, or when no row is localized in another locale, the listing returns
      every row exactly once, resolved. */
  lemma {:induction false} ListRowsOnce(rows: seq<ChoiceRow>, texts: map<(Id, Locale), string>,
                                        isOwner: bool, locale: Option<Locale>)
    requires locale.Some? ==> OnlyLocale(rows, texts, locale.value)
    ensures ListRows(rows, texts, isOwner, locale) == ResolvedRows(rows, texts, isOwner, locale)
  {
    if rows != [] {
      if locale.Some? {
        var l := locale.value;
        JoinCountValue(texts, rows[0].id, l);
        if (rows[0].id, l) !in texts {
          assert LocalesOf(texts, rows[0].id) == {};
        }
        OnlyLocaleTail(rows, texts, l);
      }
      ListRowsOnce(rows[1..], texts, isOwner, locale);
      var head := RowsFor(rows[0], texts, isOwner, locale);
      assert |head| == 1;
      assert head == [Mask(ResolvedChoice(rows[0], texts, locale), isOwner)];
      ResolvedRowsCons(rows, texts, isOwner, locale);
    }
  }

  lemma OnlyLocaleTail(rows: seq<ChoiceRow>, texts: map<(Id, Locale), string>, l: Locale)
    requires rows != [] && OnlyLocale(rows, texts, l)
    ensures OnlyLocale(rows[1..], texts, l)
  {
    forall i, m | 0 <= i < |rows[1..]| && (rows[1..][i].id, m) in texts
      ensures m == l
    {
      assert rows[1..][i] == rows[i + 1];
    }
  }

  lemma ResolvedRowsCons(rows: seq<ChoiceRow>, texts: map<(Id, Locale), string>, isOwner: bool,
                         locale: Option<Locale>)
    requires rows != []
    ensures ResolvedRows(rows, texts, isOwner, locale)
      == [Mask(ResolvedChoice(rows[0], texts, locale), isOwner)] + ResolvedRows(rows[1..], texts, isOwner, locale)
  {
    var a := ResolvedRows(rows, texts, isOwner, locale);
    var b := [Mask(ResolvedChoice(rows[0], texts, locale), isOwner)] + ResolvedRows(rows[1..], texts, isOwner, locale);
    assert |a| == |b|;
    forall i | 0 <= i < |a|
      ensures a[i] == b[i]
    {
      if i > 0 {
        assert rows[1..][i - 1] == rows[i];
      }
    }
  }

  /** One choice localized in German and French, listed in Tamil: the localized query
      keeps both joined rows (neither locale is the requested one and no Tamil overlay
      exists), so the choice comes back twice, where each row resolved once gives it once. */
  lemma ListRepeatsChoice()
    ensures var row := ChoiceRow("c1", "q1", "Base", Some(true));
      var texts: map<(Id, Locale), string> := map[("c1", "de") := "Wahl", ("c1", "fr") := "Choix"];
      && ListRows([row], texts, true, Some("ta")) == [row, row]
      && ResolvedRows([row], texts, true, Some("ta")) == [row]
  {
    var row := ChoiceRow("c1", "q1", "Base", Some(true));
    var texts: map<(Id, Locale), string> := map[("c1", "de") := "Wahl", ("c1", "fr") := "Choix"];
    var id: Id := row.id;
    assert LocalesOf<Id, string>(texts, id) == {"de", "fr"} by {
      assert (id, "de") in texts && (id, "fr") in texts;
    }
    assert (id, "ta") !in texts;
    JoinCountValue<Id, string>(texts, id, "ta");
    var out := RowsFor(row, texts, true, Some("ta"));
    assert |out| == 2;
    assert ResolvedChoice(row, texts, Some("ta")) == row;
    assert out == [row, row];
  }

  /** The listing of some rows depends only on those rows' own overlays. */
  lemma {:induction false} ListRowsAgree(rows: seq<ChoiceRow>, a: map<(Id, Locale), string>,
                                         b: map<(Id, Locale), string>, isOwner: bool, locale: Option<Locale>)
    requires forall i :: 0 <= i < |rows| ==> AgreeOn(a, b, rows[i].id)
    ensures ListRows(rows, a, isOwner, locale) == ListRows(rows, b, isOwner, locale)
  {
    if rows != [] {
      ListRowsAgree(rows[1..], a, b, isOwner, locale);
      AgreeingJoin(rows[0], rows[0].id, a, b, locale, WithValue);
    }
  }

  /** The first row carrying id `id`. */
  function FindById(rows: seq<ChoiceRow>, id: Option<Id>): (r: Option<ChoiceRow>)
    ensures r.Some? ==> r.value in rows && id == Some(r.value.id)
    ensures r.None? <==> (id.None? || forall i :: 0 <= i < |rows| ==> rows[i].id != id.value)
  {
    if rows == [] || id.None? then None
    else if rows[0].id == id.value then Some(rows[0])
    else FindById(rows[1..], id)
  }

  /** A pair the first pass of `fillChoices` can resolve: both of its ids name a row. */
  predicate Resolvable(all: seq<ChoiceRow>, p: PairRow) {
    FindById(all, p.choiceId).Some? && FindById(all, p.matchId).Some?
  }

  /** First pass: for each pair with a choice id, the row its match id names. A pair whose
      choice or match is not among the rows makes `findFirst().get()` throw. */
  function PairedMatches(all: seq<ChoiceRow>, pairs: seq<PairRow>): (r: Result<seq<ChoiceRow>, Error>)
    ensures r.Failure? <==> exists i :: 0 <= i < |pairs| && pairs[i].choiceId.Some? && !Resolvable(all, pairs[i])
    ensures r.Failure? ==> r.error == NoSuchElement
    ensures r.Success? ==> forall x :: x in r.value ==> x in all
  {
    if pairs == [] then Success([])
    else
      var rest := PairedMatches(all, pairs[1..]);
      assert forall i :: 1 <= i < |pairs| ==> pairs[i] == pairs[1..][i - 1];
      if pairs[0].choiceId.None? then rest
      else if !Resolvable(all, pairs[0]) then Failure(NoSuchElement)
      else if rest.Failure? then rest
      else Success([FindById(all, pairs[0].matchId).value] + rest.value)
  }

  /** Second pass: for each pair without a choice id, its match row when there is one. */
  function Distractors(all: seq<ChoiceRow>, pairs: seq<PairRow>): (r: seq<ChoiceRow>)
    ensures forall x :: x in r ==> x in all
  {
    if pairs == [] then [] else DistractorOf(all, pairs[0]) + Distractors(all, pairs[1..])
  }

  /** What the second pass takes from one pair. */
  function DistractorOf(all: seq<ChoiceRow>, p: PairRow): (r: seq<ChoiceRow>)
    ensures forall x :: x in r ==> x in all
  {
    if p.choiceId.None? && FindById(all, p.matchId).Some? then [FindById(all, p.matchId).value] else []
  }

  /** The rows of `xs` that are not in `ys`, in order. */
  function Without(xs: seq<ChoiceRow>, ys: seq<ChoiceRow>): (r: seq<ChoiceRow>)
    ensures forall x :: x in r <==> x in xs && x !in ys
    ensures |r| <= |xs|
  {
    if xs == [] then []
    else (if xs[0] in ys then [] else [xs[0]]) + Without(xs[1..], ys)
  }

  /** The matches of a MATCH_THE_FOLLOWING question rebuilt from all of its rows and its
      pairs, and its choices as every row that is not a match (the list of paired choices
      the first pass builds is never used). */
  function Reconstruct(all: seq<ChoiceRow>, pairs: seq<PairRow>): (r: Result<(seq<ChoiceRow>, seq<ChoiceRow>), Error>)
    ensures r.Failure? <==> exists i :: 0 <= i < |pairs| && pairs[i].choiceId.Some? && !Resolvable(all, pairs[i])
    ensures r.Success? ==>
      var (cs, ms) := r.value;
      && (forall x :: x in ms ==> x in all)
      && (forall x :: x in cs <==> x in all && x !in ms)
  {
    var paired :- PairedMatches(all, pairs);
    var ms := paired + Distractors(all, pairs);
    Success((Without(all, ms), ms))
  }

  /** The view `getQuestion` builds from a row: no choices or matches yet. */
  function ViewOf(r: QuestionRow): QuestionView {
    QuestionView(r.id, r.text, r.explanation, r.answer, r.qtype, r.createdBy, r.createdAt,
                 r.modifiedAt, None, None)
  }

  /** `fillChoices` with the `isOwner` flag it hands to `listChoices` made a parameter:
      choices for the choice types, choices and matches for MATCH_THE_FOLLOWING, nothing
      for the others. */
  function FillChoicesAs(db: Db, isOwner: bool, locale: Option<Locale>, v: QuestionView): (r: Result<QuestionView, Error>)
    ensures r.Success? ==> r.value == v.(choices := r.value.choices, matches := r.value.matches)
    ensures v.qtype != MatchTheFollowing ==> r.Success?
    ensures (v.qtype == ChooseTheBest || v.qtype == MultiChoice) ==>
      r == Success(v.(choices := Some(ListChoices(db, isOwner, v.id, locale))))
    ensures v.qtype == SingleLine ==> r == Success(v)
  {
    match v.qtype
    case ChooseTheBest | MultiChoice => Success(v.(choices := Some(ListChoices(db, isOwner, v.id, locale))))
    case MatchTheFollowing =>
      var parts :- Reconstruct(ListChoices(db, isOwner, v.id, locale), PairsOf(db.pairs, v.id));
      Success(v.(choices := Some(parts.0), matches := Some(parts.1)))
    case SingleLine => Success(v)
  }

  /** `fillChoices(locale, question)` as written: the answer flags always visible. */
  function FillChoices(db: Db, locale: Option<Locale>, v: QuestionView): Result<QuestionView, Error> {
    FillChoicesAs(db, true, locale, v)
  }

  /** The base row of `qid` resolved for the locale. */
  function ResolvedQuestion(db: Db, qid: Id, locale: Option<Locale>): QuestionRow
    requires qid in db.questions
  {
    Resolve(db.questions[qid], qid, db.questionTexts, locale, WithText)
  }

  /** `read(id, locale)`: empty when there is no row, otherwise the resolved row with its
      choices filled in. */
  function Read(db: Db, qid: Id, locale: Option<Locale>): (r: Result<Option<QuestionView>, Error>)
    ensures qid !in db.questions ==> r == Success(None)
    ensures qid in db.questions && db.questions[qid].qtype != MatchTheFollowing ==> r.Success? && r.value.Some?
    ensures r.Success? && r.value.Some? ==>
      && qid in db.questions
      && var row := db.questions[qid];
      var v := r.value.value;
      && v.id == row.id && v.qtype == row.qtype && v.answer == row.answer
      && v.createdBy == row.createdBy && v.createdAt == row.createdAt && v.updatedAt == row.modifiedAt
      && (locale.Some? && (qid, locale.value) in db.questionTexts ==>
            v.text == db.questionTexts[(qid, locale.value)].text
            && v.explanation == db.questionTexts[(qid, locale.value)].explanation)
      && (locale.None? || (qid, locale.value) !in db.questionTexts ==>
            v.text == row.text && v.explanation == row.explanation)
  {
    if qid !in db.questions then Success(None)
    else
      var v :- FillChoices(db, locale, ViewOf(ResolvedQuestion(db, qid, locale)));
      Success(Some(v))
  }

  /** A read depends only on the question's row, its resolution, its listing and its pairs. */
  lemma ReadAgree(a: Db, b: Db, qid: Id, locale: Option<Locale>)
    requires qid in a.questions <==> qid in b.questions
    requires qid in a.questions ==> a.questions[qid].id == qid
    requires qid in a.questions ==> ResolvedQuestion(a, qid, locale) == ResolvedQuestion(b, qid, locale)
    requires ListChoices(a, true, qid, locale) == ListChoices(b, true, qid, locale)
    requires PairsOf(a.pairs, qid) == PairsOf(b.pairs, qid)
    ensures Read(a, qid, locale) == Read(b, qid, locale)
  {
    if qid in a.questions {
      var v := ViewOf(ResolvedQuestion(a, qid, locale));
      assert v.id == qid;
      assert FillChoices(a, locale, v) == FillChoices(b, locale, v);
    }
  }

  /** A MATCH_THE_FOLLOWING question whose pairs cannot be rebuilt reads as the failure the
      rebuild throws. */
  lemma ReadFailsOnPairs(db: Db, qid: Id, locale: Option<Locale>)
    requires qid in db.questions && db.questions[qid].id == qid
    requires db.questions[qid].qtype == MatchTheFollowing
    requires Reconstruct(ListChoices(db, true, qid, locale), PairsOf(db.pairs, qid)).Failure?
    ensures Read(db, qid, locale) == Failure(NoSuchElement)
  {
    var v := ViewOf(ResolvedQuestion(db, qid, locale));
    assert v.id == qid && v.qtype == MatchTheFollowing;
  }
}
