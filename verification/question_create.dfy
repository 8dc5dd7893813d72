/** Creating a question: the base row, its overlay under a locale, its choices, for
    MATCH_THE_FOLLOWING its matches and pair rows, its category links; then a read. */
module QuestionCreate {
  import opened Wrappers
  import opened Common
  import opened Ids
  import opened Localization
  import opened Store
  import opened Validation
  import opened QuestionRead

  /** The items of a list that may be null (`createChoices` treats null as empty). */
  function Items(xs: Option<seq<Choice>>): seq<Choice> {
    xs.GetOr([])
  }

  /** The row `createChoice` inserts: a fresh id, the question's id, and `FALSE` for a
      null answer flag. */
  function NewRow(c: Choice, qid: Id, cid: Id): (r: ChoiceRow)
    ensures r.id == cid && r.questionId == qid && r.cValue == c.cValue
    ensures r.isAnswer.Some? && (r.isAnswer.value <==> c.isAnswer == Some(true))
  {
    ChoiceRow(cid, qid, c.cValue, Some(c.isAnswer.GetOr(false)))
  }

  /** Inserting a choice row and, under a locale, its overlay with the same value. */
  function InsertChoice(db: Db, row: ChoiceRow, locale: Option<Locale>): Db {
    db.(choices := db.choices + [row],
        choiceTexts := if locale.Some? then db.choiceTexts[(row.id, locale.value) := row.cValue] else db.choiceTexts)
  }

  /** The rows `createChoices` would insert for `cs`, ids taken from the supply in order. */
  function NewRows(cs: seq<Choice>, qid: Id, supply: seq<Id>): (r: seq<ChoiceRow>)
    requires |supply| >= |cs|
    ensures |r| == |cs|
    ensures forall i :: 0 <= i < |cs| ==> r[i] == NewRow(cs[i], qid, supply[i])
  {
    seq(|cs|, i requires 0 <= i < |cs| => NewRow(cs[i], qid, supply[i]))
  }

  /** `createChoices(choices, locale, questionId)`: the new rows are appended in payload
      order; only the choice rows and their overlays change. */
  function CreateChoices(db: Db, cs: seq<Choice>, locale: Option<Locale>, qid: Id, supply: seq<Id>): (r: Db)
    requires |supply| >= |cs|
    ensures r.choices == db.choices + NewRows(cs, qid, supply)
    ensures r == db.(choices := r.choices, choiceTexts := r.choiceTexts)
    ensures locale.None? ==> r.choiceTexts == db.choiceTexts
    decreases |cs|
  {
    if cs == [] then db
    else
      var rest := CreateChoices(InsertChoice(db, NewRow(cs[0], qid, supply[0]), locale), cs[1..], locale, qid, supply[1..]);
      assert NewRows(cs, qid, supply) == [NewRow(cs[0], qid, supply[0])] + NewRows(cs[1..], qid, supply[1..]);
      rest
  }

  /** The overlays `createChoices` leaves: the old ones, plus new ones under the locale for
      ids it handed out. */
  lemma {:induction false} CreateChoicesNewKeys(db: Db, cs: seq<Choice>, locale: Option<Locale>, qid: Id, supply: seq<Id>)
    requires |supply| >= |cs|
    ensures forall k :: k in CreateChoices(db, cs, locale, qid, supply).choiceTexts ==>
      k in db.choiceTexts || (k.0 in supply[..|cs|] && Some(k.1) == locale)
    decreases |cs|
  {
    if cs != [] {
      var d := InsertChoice(db, NewRow(cs[0], qid, supply[0]), locale);
      CreateChoicesNewKeys(d, cs[1..], locale, qid, supply[1..]);
      assert supply[..|cs|] == [supply[0]] + supply[1..][..|cs| - 1];
    }
  }

  /** An overlay whose id `createChoices` does not hand out keeps its value. */
  lemma {:induction false} CreateChoicesKeepsOthers(db: Db, cs: seq<Choice>, locale: Option<Locale>, qid: Id, supply: seq<Id>)
    requires |supply| >= |cs|
    ensures var r := CreateChoices(db, cs, locale, qid, supply);
      forall k :: k in db.choiceTexts && k.0 !in supply[..|cs|] ==> k in r.choiceTexts && r.choiceTexts[k] == db.choiceTexts[k]
    decreases |cs|
  {
    if cs != [] {
      var d := InsertChoice(db, NewRow(cs[0], qid, supply[0]), locale);
      CreateChoicesKeepsOthers(d, cs[1..], locale, qid, supply[1..]);
      assert supply[..|cs|] == [supply[0]] + supply[1..][..|cs| - 1];
    }
  }

  /** Under a locale, each handed-out id that is not handed out again later gets an overlay
      with its item's value. */
  lemma {:induction false} CreateChoicesValues(db: Db, cs: seq<Choice>, l: Locale, qid: Id, supply: seq<Id>, i: nat)
    requires |supply| >= |cs| && i < |cs| && supply[i] !in supply[i + 1..|cs|]
    ensures var r := CreateChoices(db, cs, Some(l), qid, supply);
      (supply[i], l) in r.choiceTexts && r.choiceTexts[(supply[i], l)] == cs[i].cValue
    decreases |cs|
  {
    if i == 0 {
      CreateChoicesFirstValue(db, cs, l, qid, supply);
    } else {
      var d := InsertChoice(db, NewRow(cs[0], qid, supply[0]), Some(l));
      assert supply[1..][i - 1..|cs| - 1] == supply[i..|cs|];
      assert supply[1..][i..|cs| - 1] == supply[i + 1..|cs|];
      CreateChoicesValues(d, cs[1..], l, qid, supply[1..], i - 1);
    }
  }

  /** The first item's overlay survives the rest of the batch when its id is not handed
      out again. */
  lemma CreateChoicesFirstValue(db: Db, cs: seq<Choice>, l: Locale, qid: Id, supply: seq<Id>)
    requires |supply| >= |cs| > 0 && supply[0] !in supply[1..|cs|]
    ensures var r := CreateChoices(db, cs, Some(l), qid, supply);
      (supply[0], l) in r.choiceTexts && r.choiceTexts[(supply[0], l)] == cs[0].cValue
  {
    var d := InsertChoice(db, NewRow(cs[0], qid, supply[0]), Some(l));
    assert d.choiceTexts[(supply[0], l)] == cs[0].cValue;
    assert supply[1..][..|cs| - 1] == supply[1..|cs|];
    CreateChoicesKeepsOthers(d, cs[1..], Some(l), qid, supply[1..]);
  }

  /** Where a surplus match's id goes in its pair row: the code writes it in the choice slot
      (`new Matches(id, eMatch.id(), null)`); the update path and the read path expect it in
      the match slot. */
  datatype Pairing = AsWritten | Corrected

  /** The pairing block of `create`: choice i with match i, then one pair per surplus match. */
  function BuildPairs(how: Pairing, qid: Id, cs: seq<ChoiceRow>, ms: seq<ChoiceRow>): (r: seq<PairRow>)
    requires |cs| <= |ms|
    ensures |r| == |ms|
    ensures forall i :: 0 <= i < |cs| ==> r[i] == PairRow(qid, Some(cs[i].id), Some(ms[i].id))
    ensures forall i :: |cs| <= i < |ms| ==>
      r[i] == (if how == AsWritten then PairRow(qid, Some(ms[i].id), None) else PairRow(qid, None, Some(ms[i].id)))
  {
    seq(|ms|, i requires 0 <= i < |ms| =>
      if i < |cs| then PairRow(qid, Some(cs[i].id), Some(ms[i].id))
      else if how == AsWritten then PairRow(qid, Some(ms[i].id), None)
      else PairRow(qid, None, Some(ms[i].id)))
  }

  /** The choices a create inserts for a type: none unless it is a choice type. */
  function ChoicesOf(t: QuestionType, p: Payload): seq<Choice> {
    if HasChoices(t) then Items(p.choices) else []
  }

  /** The matches a create inserts for a type: none unless it is MATCH_THE_FOLLOWING. */
  function MatchesOf(t: QuestionType, p: Payload): seq<Choice> {
    if t == MatchTheFollowing then Items(p.matches) else []
  }

  /** How many fresh ids a create consumes: the question's, then one per choice and match. */
  function IdsUsed(t: QuestionType, p: Payload): nat {
    if Violations(t, p) != {} then 0
    else 1 + |ChoicesOf(t, p)| + |MatchesOf(t, p)|
  }

  /** The base row `create` inserts. */
  function BaseRow(qid: Id, t: QuestionType, creator: string, now: Stamp, p: Payload): QuestionRow {
    QuestionRow(qid, p.text, p.explanation, t, p.answer, now, creator, None, None)
  }

  /** The writes of a valid `create`, in the code's order. */
  function CreateWrites(how: Pairing, db: Db, categories: seq<string>, t: QuestionType,
                        locale: Option<Locale>, creator: string, now: Stamp, p: Payload, supply: seq<Id>): (r: Db)
    requires Violations(t, p) == {} && |supply| >= IdsUsed(t, p)
    ensures var qid := supply[0];
      var cRows := NewRows(ChoicesOf(t, p), qid, supply[1..]);
      var mRows := NewRows(MatchesOf(t, p), qid, supply[1 + |ChoicesOf(t, p)|..]);
      && r.questions == db.questions[qid := BaseRow(qid, t, creator, now, p)]
      && r.questionTexts == (if locale.Some? then db.questionTexts[(qid, locale.value) := QuestionText(p.text, p.explanation)]
                             else db.questionTexts)
      && r.choices == db.choices + cRows + mRows
      && (t == MatchTheFollowing ==> |cRows| <= |mRows| && r.pairs == db.pairs + BuildPairs(how, qid, cRows, mRows))
      && (t != MatchTheFollowing ==> r.pairs == db.pairs)
      && r.questionCategories == db.questionCategories + (set c | c in categories :: (qid, c))
      && r.questionTags == db.questionTags && r.categories == db.categories && r.tags == db.tags
      && (locale.None? ==> r.choiceTexts == db.choiceTexts)
  {
    ValidIff(t, p);
    var qid := supply[0];
    var db1 := db.(questions := db.questions[qid := BaseRow(qid, t, creator, now, p)],
                   questionTexts := if locale.Some? then db.questionTexts[(qid, locale.value) := QuestionText(p.text, p.explanation)]
                                    else db.questionTexts);
    var cs := ChoicesOf(t, p);
    var db2 := CreateChoices(db1, cs, locale, qid, supply[1..]);
    var db3 := if t == MatchTheFollowing then
        var ms := Items(p.matches);
        var d := CreateChoices(db2, ms, locale, qid, supply[1 + |cs|..]);
        d.(pairs := d.pairs + BuildPairs(how, qid, NewRows(cs, qid, supply[1..]), NewRows(ms, qid, supply[1 + |cs|..])))
      else db2;
    db3.(questionCategories := db3.questionCategories + (set c | c in categories :: (qid, c)))
  }

  /** `create(categories, tags, type, locale, createdBy, question)` with the code's pairing.
      With violations nothing is written and they are all reported. Otherwise the writes
      happen and the question is read back; the read can fail after the writes, which stay. */
  function Create(db: Db, categories: seq<string>, t: QuestionType, locale: Option<Locale>,
                  creator: string, now: Stamp, p: Payload, supply: seq<Id>): (r: (Db, Result<Option<QuestionView>, Error>))
    requires |supply| >= IdsUsed(t, p)
    ensures Violations(t, p) != {} ==> r == (db, Failure(Invalid(Violations(t, p))))
    ensures Violations(t, p) == {} ==>
      && r.0 == CreateWrites(AsWritten, db, categories, t, locale, creator, now, p, supply)
      && r.0.questions[supply[0]].qtype == t
      && r.0.questions[supply[0]].createdBy == creator
      && r.1 == Read(r.0, supply[0], locale)
  {
    CreateWith(AsWritten, db, categories, t, locale, creator, now, p, supply)
  }

  /** `create` with a choice of where surplus match ids go. */
  function CreateWith(how: Pairing, db: Db, categories: seq<string>, t: QuestionType, locale: Option<Locale>,
                      creator: string, now: Stamp, p: Payload, supply: seq<Id>): (r: (Db, Result<Option<QuestionView>, Error>))
    requires |supply| >= IdsUsed(t, p)
  {
    var v := Violations(t, p);
    if v != {} then (db, Failure(Invalid(v)))
    else
      var db' := CreateWrites(how, db, categories, t, locale, creator, now, p, supply);
      (db', Read(db', supply[0], locale))
  }
}
