/** Grading a question straight after creating it: the ids the creator flagged as answers
    are graded right. */
module GradeCreated {
  import opened Wrappers
  import opened Common
  import opened Ids
  import opened Store
  import opened Validation
  import opened QuestionRead
  import opened QuestionCreate
  import opened CreateReadBack
  import opened Answer

  /** The rows a CHOOSE_THE_BEST or MULTI_CHOICE create inserts carry a flag each, distinct ids, and a set flag
      wherever the payload set one. */
  lemma CreatedChoicesGradable(t: QuestionType, p: Payload, supply: seq<Id>)
    requires t == MultiChoice || t == ChooseTheBest
    requires Violations(t, p) == {} && |supply| >= IdsUsed(t, p)
    requires Distinct(supply[..IdsUsed(t, p)])
    ensures var rows := CreatedChoiceRows(t, p, supply);
      && AllFlagged(rows) && Distinct(IdsOf(rows))
      && exists i :: 0 <= i < |rows| && Flagged(rows[i])
  {
    var rows := CreatedChoiceRows(t, p, supply);
    CreatedDistinct(t, p, supply);
    assert CreatedRows(t, p, supply) == rows;
    ValidIff(t, p);
    var i :| 0 <= i < |p.choices.value| && p.choices.value[i].isAnswer == Some(true);
    assert Flagged(rows[i]);
  }

  /** A MULTI_CHOICE question created without a locale grades its flagged ids, joined by
      commas, as right. */
  lemma CreatedMultiChoiceGradesFlagged(db: Db, categories: seq<string>, creator: string, now: Stamp,
                                        p: Payload, supply: seq<Id>)
    requires Violations(MultiChoice, p) == {} && |supply| >= IdsUsed(MultiChoice, p)
    requires Distinct(supply[..IdsUsed(MultiChoice, p)]) && Unused(db, supply[..IdsUsed(MultiChoice, p)])
    ensures var db' := Create(db, categories, MultiChoice, None, creator, now, p, supply).0;
      var rows := CreatedChoiceRows(MultiChoice, p, supply);
      && FlaggedIds(rows).Success?
      && Grade(db', supply[0], Join(FlaggedIds(rows).value)) == Success(true)
  {
    CreateThenRead(db, categories, MultiChoice, None, creator, now, p, supply);
    CreatedChoicesGradable(MultiChoice, p, supply);
    var v := Create(db, categories, MultiChoice, None, creator, now, p, supply).1.value.value;
    MultiChoiceAcceptsJoined(v);
  }

  /** A CHOOSE_THE_BEST question created without a locale grades the id of its first
      flagged choice as right, and any other submission as wrong. */
  lemma CreatedChooseTheBestGradesFirst(db: Db, categories: seq<string>, creator: string, now: Stamp,
                                        p: Payload, supply: seq<Id>, submitted: string)
    requires Violations(ChooseTheBest, p) == {} && |supply| >= IdsUsed(ChooseTheBest, p)
    requires Distinct(supply[..IdsUsed(ChooseTheBest, p)]) && Unused(db, supply[..IdsUsed(ChooseTheBest, p)])
    ensures var db' := Create(db, categories, ChooseTheBest, None, creator, now, p, supply).0;
      var rows := CreatedChoiceRows(ChooseTheBest, p, supply);
      && FirstFlagged(rows).Success? && FirstFlagged(rows).value.Some?
      && Grade(db', supply[0], submitted) == Success(submitted == FirstFlagged(rows).value.value.id)
  {
    CreateThenRead(db, categories, ChooseTheBest, None, creator, now, p, supply);
    CreatedChoicesGradable(ChooseTheBest, p, supply);
    var v := Create(db, categories, ChooseTheBest, None, creator, now, p, supply).1.value.value;
    ChooseTheBestFirst(v, submitted);
  }
}
