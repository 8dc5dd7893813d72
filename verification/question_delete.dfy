/** Deleting a question: its pair rows (for MATCH_THE_FOLLOWING), its choices with their
    overlays, its own overlays, its category links, and finally its base row when the
    stored type is the one given. */
module QuestionDelete {
  import opened Wrappers
  import opened Ids
  import opened Localization
  import opened Store
  import opened QuestionRead

  /** The choice rows that do not belong to question `qid`, in table order. */
  function OtherRows(rows: seq<ChoiceRow>, qid: Id): (r: seq<ChoiceRow>)
    ensures forall x :: x in r <==> x in rows && x.questionId != qid
  {
    if rows == [] then []
    else (if rows[0].questionId != qid then [rows[0]] else []) + OtherRows(rows[1..], qid)
  }

  /** The pair rows that do not belong to question `qid`, in table order. The same filter
      as `OtherRows` over the other table; the two row types share no field access, so a
      single generic filter would need the owner projection passed in. */
  function OtherPairs(pairs: seq<PairRow>, qid: Id): (r: seq<PairRow>)
    ensures forall x :: x in r <==> x in pairs && x.questionId != qid
  {
    if pairs == [] then []
    else (if pairs[0].questionId != qid then [pairs[0]] else []) + OtherPairs(pairs[1..], qid)
  }

  /** Removing one question's rows leaves every other question's rows, in order, and none
      of its own. */
  lemma {:induction false} OtherRowsOf(rows: seq<ChoiceRow>, qid: Id, q: Id)
    ensures RowsOf(OtherRows(rows, qid), q) == if q == qid then [] else RowsOf(rows, q)
  {
    if rows != [] {
      var head := if rows[0].questionId != qid then [rows[0]] else [];
      OtherRowsOf(rows[1..], qid, q);
      RowsOfAppend(head, OtherRows(rows[1..], qid), q);
    }
  }

  lemma {:induction false} OtherPairsOf(pairs: seq<PairRow>, qid: Id, q: Id)
    ensures PairsOf(OtherPairs(pairs, qid), q) == if q == qid then [] else PairsOf(pairs, q)
  {
    if pairs != [] {
      var head := if pairs[0].questionId != qid then [pairs[0]] else [];
      OtherPairsOf(pairs[1..], qid, q);
      PairsOfAppend(head, OtherPairs(pairs[1..], qid), q);
    }
  }

  /** `deleteMatches(questionId)`: every pair row of the question goes. */
  function DeleteMatches(db: Db, qid: Id): (r: Db)
    ensures r == db.(pairs := r.pairs)
    ensures forall p :: p in r.pairs <==> p in db.pairs && p.questionId != qid
  {
    db.(pairs := OtherPairs(db.pairs, qid))
  }

  /** `deleteChoices(questionId)`: first the overlays of the question's choice rows, then
      the rows themselves. */
  function DeleteChoices(db: Db, qid: Id): (r: Db)
    ensures r == db.(choices := r.choices, choiceTexts := r.choiceTexts)
    ensures forall x :: x in r.choices <==> x in db.choices && x.questionId != qid
    ensures forall k :: k in r.choiceTexts <==>
      k in db.choiceTexts && !(exists i :: 0 <= i < |db.choices| && db.choices[i].questionId == qid && db.choices[i].id == k.0)
    ensures forall k :: k in r.choiceTexts ==> r.choiceTexts[k] == db.choiceTexts[k]
  {
    db.(choiceTexts := DropKeys(db.choiceTexts, IdSetOf(db.choices, qid)),
        choices := OtherRows(db.choices, qid))
  }

  /** `delete(questionId, questionType)`. The base row goes only when its stored type is
      the given one; everything else of the question goes regardless, except its pair rows
      when the given type is not MATCH_THE_FOLLOWING and its tag links, which are never
      touched. */
  function Delete(db: Db, qid: Id, t: QuestionType): (r: Db)
    ensures r.questions == if qid in db.questions && db.questions[qid].qtype == t
                           then db.questions - {qid} else db.questions
    ensures forall k :: k in r.questionTexts <==> k in db.questionTexts && k.0 != qid
    ensures forall k :: k in r.questionTexts ==> r.questionTexts[k] == db.questionTexts[k]
    ensures forall x :: x in r.choices <==> x in db.choices && x.questionId != qid
    ensures forall k :: k in r.choiceTexts ==> k in db.choiceTexts && r.choiceTexts[k] == db.choiceTexts[k]
    ensures t == MatchTheFollowing ==> forall p :: p in r.pairs <==> p in db.pairs && p.questionId != qid
    ensures t != MatchTheFollowing ==> r.pairs == db.pairs
    ensures forall c :: c in r.questionCategories <==> c in db.questionCategories && c.0 != qid
    ensures r.questionTags == db.questionTags && r.categories == db.categories && r.tags == db.tags
  {
    var db1 := if t == MatchTheFollowing then DeleteMatches(db, qid) else db;
    var db2 := DeleteChoices(db1, qid);
    db2.(questionTexts := DropKeys(db2.questionTexts, {qid}),
         questionCategories := (set c | c in db2.questionCategories && c.0 != qid),
         questions := if qid in db2.questions && db2.questions[qid].qtype == t
                      then db2.questions - {qid} else db2.questions)
  }

  /** Deleting with the stored type (or an unknown id) leaves nothing of the question to
      read: no row, no choice, no overlay, no category link, and for MATCH_THE_FOLLOWING no
      pair. */
  lemma DeleteThenRead(db: Db, qid: Id, t: QuestionType, locale: Option<Locale>)
    requires qid in db.questions ==> db.questions[qid].qtype == t
    ensures var r := Delete(db, qid, t);
      && Read(r, qid, locale) == Success(None)
      && RowsOf(r.choices, qid) == []
      && (forall l :: (qid, l) !in r.questionTexts)
      && (t == MatchTheFollowing ==> PairsOf(r.pairs, qid) == [])
      && (forall c :: (qid, c) !in r.questionCategories)
  {
    var r := Delete(db, qid, t);
    var db1 := if t == MatchTheFollowing then DeleteMatches(db, qid) else db;
    OtherRowsOf(db1.choices, qid, qid);
    if t == MatchTheFollowing {
      OtherPairsOf(db.pairs, qid, qid);
    }
  }

  /** Deleting with a type other than the stored one keeps the base row but still removes
      the question's choices, overlays and category links; its pair rows survive unless the
      given type is MATCH_THE_FOLLOWING. */
  lemma DeleteWrongType(db: Db, qid: Id, t: QuestionType)
    requires qid in db.questions && db.questions[qid].qtype != t
    ensures var r := Delete(db, qid, t);
      && qid in r.questions && r.questions[qid] == db.questions[qid]
      && RowsOf(r.choices, qid) == []
      && (forall l :: (qid, l) !in r.questionTexts)
      && (t != MatchTheFollowing ==> PairsOf(r.pairs, qid) == PairsOf(db.pairs, qid))
  {
    var db1 := if t == MatchTheFollowing then DeleteMatches(db, qid) else db;
    OtherRowsOf(db1.choices, qid, qid);
  }

  /** No choice row of question `qid` shares its id with a row of question `q`. */
  ghost predicate SeparateIds(rows: seq<ChoiceRow>, qid: Id, q: Id) {
    forall i, j :: 0 <= i < |rows| && 0 <= j < |rows| && rows[i].questionId == qid && rows[j].questionId == q ==>
      rows[i].id != rows[j].id
  }

  /** A delete leaves every other question's choice listing as it was. */
  lemma DeleteKeepsOtherChoices(db: Db, qid: Id, t: QuestionType, q: Id, isOwner: bool, locale: Option<Locale>)
    requires q != qid && SeparateIds(db.choices, qid, q)
    ensures ListChoices(Delete(db, qid, t), isOwner, q, locale) == ListChoices(db, isOwner, q, locale)
  {
    var r := Delete(db, qid, t);
    var db1 := if t == MatchTheFollowing then DeleteMatches(db, qid) else db;
    OtherRowsOf(db1.choices, qid, q);
    var rows := RowsOf(db.choices, q);
    assert RowsOf(r.choices, q) == rows;
    forall i | 0 <= i < |rows|
      ensures AgreeOn(r.choiceTexts, db.choiceTexts, rows[i].id)
    {
      assert rows[i] in db.choices;
      assert rows[i].id !in IdSetOf(db.choices, qid);
    }
    ListRowsAgree(rows, r.choiceTexts, db.choiceTexts, isOwner, locale);
  }

  /** A delete leaves every other question's pair rows, in order. */
  lemma DeleteKeepsOtherPairs(db: Db, qid: Id, t: QuestionType, q: Id)
    requires q != qid
    ensures PairsOf(Delete(db, qid, t).pairs, q) == PairsOf(db.pairs, q)
  {
    if t == MatchTheFollowing {
      OtherPairsOf(db.pairs, qid, q);
    }
  }

  /** A delete leaves every other question's base row and its resolution in any locale. */
  lemma DeleteKeepsOtherRow(db: Db, qid: Id, t: QuestionType, q: Id, locale: Option<Locale>)
    requires q != qid
    ensures q in Delete(db, qid, t).questions <==> q in db.questions
    ensures q in db.questions ==> ResolvedQuestion(Delete(db, qid, t), q, locale) == ResolvedQuestion(db, q, locale)
  {
    var r := Delete(db, qid, t);
    if q in db.questions {
      assert AgreeOn(r.questionTexts, db.questionTexts, q);
      AgreeingJoin(db.questions[q], q, r.questionTexts, db.questionTexts, locale, WithText);
    }
  }

  /** Deleting one question changes nothing that a read of another question sees, in any
      locale, provided their choice ids are distinct. */
  lemma DeleteKeepsOthers(db: Db, qid: Id, t: QuestionType, q: Id, locale: Option<Locale>)
    requires q != qid && SeparateIds(db.choices, qid, q)
    requires q in db.questions ==> db.questions[q].id == q
    ensures Read(Delete(db, qid, t), q, locale) == Read(db, q, locale)
  {
    DeleteKeepsOtherChoices(db, qid, t, q, true, locale);
    DeleteKeepsOtherPairs(db, qid, t, q);
    DeleteKeepsOtherRow(db, qid, t, q, locale);
    ReadAgree(Delete(db, qid, t), db, q, locale);
  }
}
