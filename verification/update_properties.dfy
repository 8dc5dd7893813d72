/** What an update does to the question's rows: which choice rows survive the
    reconciliation, what a localized update leaves of the base text, that pair rows are
    never deleted, and what a read after the update sees. */
module UpdateProperties {
  import opened Wrappers
  import opened Common
  import opened Ids
  import opened Localization
  import opened Store
  import opened Validation
  import opened QuestionRead
  import opened QuestionCreate
  import opened QuestionUpdate

  /** The choice rows after the reconciliation extend the rows the deletion step keeps:
      same ids, owners and, under a locale, values in place, then rows with new ids. */
  lemma ReconcileExtends(db: Db, t: QuestionType, qid: Id, locale: Option<Locale>, p: Payload, supply: seq<Id>)
    requires |supply| >= UpdateIdsUsed(t, p) && HasChoices(t) && p.choices.Some?
    ensures Extends(Prune(db, qid, KeptIds(t, p.choices.value, p)).choices,
                    Reconcile(db, t, qid, locale, p, supply).choices, locale, qid, supply[..UpdateIdsUsed(t, p)])
  {
    var cs := p.choices.value;
    var n := UpdateIdsUsed(t, p);
    var nc := NewCount(cs);
    var d1 := Prune(db, qid, KeptIds(t, cs, p));
    var d2 := ApplyChoices(d1, cs, locale, qid, supply);
    if t == MatchTheFollowing && p.matches.Some? {
      var ms := p.matches.value;
      var d3 := ApplyMatches(d2, ms, cs, 0, locale, qid, supply[nc..]);
      assert Reconcile(db, t, qid, locale, p, supply) == d3;
      SplitIds(supply, nc, n);
      ExtendsTrans(d1.choices, d2.choices, d3.choices, locale, qid, supply[..nc], supply[nc..][..n - nc], supply[..n]);
    } else {
      assert Reconcile(db, t, qid, locale, p, supply) == d2;
      assert n == nc;
    }
  }

  /** The ids of two consecutive takes from the supply are among those of one take. */
  lemma SplitIds(supply: seq<Id>, m: nat, n: nat)
    requires m <= n <= |supply|
    ensures forall x :: x in supply[..m] ==> x in supply[..n]
    ensures forall x :: x in supply[m..][..n - m] ==> x in supply[..n]
  {
    assert supply[m..][..n - m] == supply[m..n];
    assert forall j :: 0 <= j < m ==> supply[..m][j] == supply[..n][j];
    assert forall j :: m <= j < n ==> supply[m..n][j - m] == supply[..n][j];
  }

  /** Overlays after the reconciliation: the kept ones, and ones for ids the payload
      carries or the update hands out. */
  lemma ReconcileOverlays(db: Db, t: QuestionType, qid: Id, locale: Option<Locale>, p: Payload, supply: seq<Id>)
    requires |supply| >= UpdateIdsUsed(t, p) && HasChoices(t) && p.choices.Some?
    ensures var keep := KeptIds(t, p.choices.value, p);
      forall k :: k in Reconcile(db, t, qid, locale, p, supply).choiceTexts ==>
        k in Prune(db, qid, keep).choiceTexts || k.0 in keep || k.0 in supply[..UpdateIdsUsed(t, p)]
  {
    var cs := p.choices.value;
    var n := UpdateIdsUsed(t, p);
    var nc := NewCount(cs);
    assert forall x :: x in supply[..nc] ==> x in supply[..n];
    if t == MatchTheFollowing && p.matches.Some? {
      assert supply[nc..][..NewCount(p.matches.value)] == supply[nc..n];
    }
  }

  /** With no id in the payload the reconciliation deletes nothing: the old rows stay in
      place, untouched, and so do their overlays. */
  lemma ReconcileNoIds(db: Db, t: QuestionType, qid: Id, locale: Option<Locale>, p: Payload, supply: seq<Id>)
    requires |supply| >= UpdateIdsUsed(t, p) && HasChoices(t) && p.choices.Some?
    requires KeptIds(t, p.choices.value, p) == []
    ensures var r := Reconcile(db, t, qid, locale, p, supply);
      && |db.choices| <= |r.choices| && r.choices[..|db.choices|] == db.choices
      && forall k :: k in db.choiceTexts ==> k in r.choiceTexts
  {
    var cs := p.choices.value;
    var d2 := ApplyChoices(db, cs, locale, qid, supply);
    if t == MatchTheFollowing && p.matches.Some? {
      var d3 := ApplyMatches(d2, p.matches.value, cs, 0, locale, qid, supply[NewCount(cs)..]);
      assert d3.choices[..|db.choices|] == d2.choices[..|d2.choices|][..|db.choices|];
    }
  }

  /** Update reconciliation. When some payload choice or match carries an id, no row of the
      question survives whose id is neither among them nor handed out by the update, and no
      overlay survives for a deleted row's id unless the update handed that id out again.
      When none carries an id, every old row and overlay stays. */
  lemma UpdateDeletesAbsent(db: Db, t: QuestionType, qid: Id, locale: Option<Locale>, p: Payload, now: Stamp, supply: seq<Id>)
    requires Violations(t, p) == {} && |supply| >= UpdateIdsUsed(t, p) && HasChoices(t) && p.choices.Some?
    requires WriteQuestion(db, t, qid, locale, p, now).Success?
    ensures var r := Update(db, t, qid, locale, p, now, supply).0;
      var keep := KeptIds(t, p.choices.value, p);
      var used := supply[..UpdateIdsUsed(t, p)];
      && (keep != [] ==>
            && (forall y :: y in r.choices && y.questionId == qid ==> y.id in keep || y.id == qid || y.id in used)
            && (forall k :: k in r.choiceTexts && k.0 in Dropped(db.choices, qid, keep) ==> k.0 in used))
      && (keep == [] ==>
            && |db.choices| <= |r.choices| && r.choices[..|db.choices|] == db.choices
            && forall k :: k in db.choiceTexts ==> k in r.choiceTexts)
  {
    var db2 := WriteQuestion(db, t, qid, locale, p, now).value;
    var r := Update(db, t, qid, locale, p, now, supply).0;
    var keep := KeptIds(t, p.choices.value, p);
    var used := supply[..UpdateIdsUsed(t, p)];
    assert r == Reconcile(db2, t, qid, locale, p, supply);
    assert db2.choices == db.choices && db2.choiceTexts == db.choiceTexts;
    if keep != [] {
      var d1 := Prune(db2, qid, keep);
      ReconcileExtends(db2, t, qid, locale, p, supply);
      forall y | y in r.choices && y.questionId == qid
        ensures y.id in keep || y.id == qid || y.id in used
      {
        var i :| 0 <= i < |r.choices| && r.choices[i] == y;
        if i < |d1.choices| {
          assert d1.choices[i] in d1.choices;
        }
      }
      ReconcileOverlays(db2, t, qid, locale, p, supply);
      forall k | k in r.choiceTexts && k.0 in Dropped(db.choices, qid, keep)
        ensures k.0 in used
      {
        var i :| 0 <= i < |db.choices| && db.choices[i].questionId == qid && db.choices[i].id !in keep && db.choices[i].id == k.0;
      }
    } else {
      ReconcileNoIds(db2, t, qid, locale, p, supply);
    }
  }

  /** A localized update keeps every question row's text and explanation. */
  lemma UpdateKeepsQuestionText(db: Db, t: QuestionType, qid: Id, l: Locale, p: Payload, now: Stamp, supply: seq<Id>)
    requires |supply| >= UpdateIdsUsed(t, p)
    ensures var r := Update(db, t, qid, Some(l), p, now, supply).0;
      && r.questions.Keys == db.questions.Keys
      && (forall k :: k in db.questions ==>
            r.questions[k].text == db.questions[k].text && r.questions[k].explanation == db.questions[k].explanation)
  {
    var w := WriteQuestion(db, t, qid, Some(l), p, now);
    if Violations(t, p) == {} {
      BaseKeepsText(db, t, qid, l, p, now);
      if w.Success? {
        assert Update(db, t, qid, Some(l), p, now, supply).0 == Reconcile(w.value, t, qid, Some(l), p, supply);
      }
    }
  }

  /** The localized question writes leave every question row's text and explanation. */
  lemma BaseKeepsText(db: Db, t: QuestionType, qid: Id, l: Locale, p: Payload, now: Stamp)
    ensures var b := WriteBase(db, qid, t, Some(l), p, now);
      forall k :: k in db.questions ==>
        b.questions[k].text == db.questions[k].text && b.questions[k].explanation == db.questions[k].explanation
    ensures var w := WriteQuestion(db, t, qid, Some(l), p, now);
      w.Success? ==> forall k :: k in db.questions ==>
        w.value.questions[k].text == db.questions[k].text && w.value.questions[k].explanation == db.questions[k].explanation
  {
  }

  /** A localized update leaves every choice row it did not create with the value of an
      old row with the same id and owner. */
  lemma UpdateKeepsChoiceValues(db: Db, t: QuestionType, qid: Id, l: Locale, p: Payload, now: Stamp, supply: seq<Id>)
    requires |supply| >= UpdateIdsUsed(t, p)
    ensures var r := Update(db, t, qid, Some(l), p, now, supply).0;
      forall y :: y in r.choices ==>
        y.id in supply[..UpdateIdsUsed(t, p)]
        || exists x :: x in db.choices && x.id == y.id && x.questionId == y.questionId && x.cValue == y.cValue
  {
    var w := WriteQuestion(db, t, qid, Some(l), p, now);
    if Violations(t, p) == {} && w.Success? {
      assert Update(db, t, qid, Some(l), p, now, supply).0 == Reconcile(w.value, t, qid, Some(l), p, supply);
      ReconcileKeepsValues(w.value, t, qid, l, p, supply);
    }
  }

  /** Under a locale, every choice row after the reconciliation has a new id or the value of
      a row before it with the same id and owner. */
  lemma ReconcileKeepsValues(db: Db, t: QuestionType, qid: Id, l: Locale, p: Payload, supply: seq<Id>)
    requires |supply| >= UpdateIdsUsed(t, p)
    ensures forall y :: y in Reconcile(db, t, qid, Some(l), p, supply).choices ==>
      y.id in supply[..UpdateIdsUsed(t, p)]
      || exists x :: x in db.choices && x.id == y.id && x.questionId == y.questionId && x.cValue == y.cValue
  {
    var r := Reconcile(db, t, qid, Some(l), p, supply);
    if HasChoices(t) && p.choices.Some? {
      var d1 := Prune(db, qid, KeptIds(t, p.choices.value, p));
      ReconcileExtends(db, t, qid, Some(l), p, supply);
      forall y | y in r.choices
        ensures y.id in supply[..UpdateIdsUsed(t, p)]
          || exists x :: x in db.choices && x.id == y.id && x.questionId == y.questionId && x.cValue == y.cValue
      {
        var i :| 0 <= i < |r.choices| && r.choices[i] == y;
        if i < |d1.choices| {
          assert d1.choices[i] in d1.choices;
        }
      }
    }
  }

  /** A localized update never overwrites base text: every question row keeps its text and
      explanation, and every choice row that the update did not create carries the value
      of an old row with the same id and owner. */
  lemma UpdateKeepsBaseText(db: Db, t: QuestionType, qid: Id, l: Locale, p: Payload, now: Stamp, supply: seq<Id>)
    requires |supply| >= UpdateIdsUsed(t, p)
    ensures var r := Update(db, t, qid, Some(l), p, now, supply).0;
      && r.questions.Keys == db.questions.Keys
      && (forall k :: k in db.questions ==>
            r.questions[k].text == db.questions[k].text && r.questions[k].explanation == db.questions[k].explanation)
      && (forall y :: y in r.choices ==>
            y.id in supply[..UpdateIdsUsed(t, p)]
            || exists x :: x in db.choices && x.id == y.id && x.questionId == y.questionId && x.cValue == y.cValue)
  {
    UpdateKeepsQuestionText(db, t, qid, l, p, now, supply);
    UpdateKeepsChoiceValues(db, t, qid, l, p, now, supply);
  }

  /** Update never deletes pair rows: the old ones stay in place with their question and
      match ids, and new ones are appended. */
  lemma UpdateKeepsPairs(db: Db, t: QuestionType, qid: Id, locale: Option<Locale>, p: Payload, now: Stamp, supply: seq<Id>)
    requires |supply| >= UpdateIdsUsed(t, p)
    ensures var r := Update(db, t, qid, locale, p, now, supply).0;
      && |db.pairs| <= |r.pairs|
      && forall j :: 0 <= j < |db.pairs| ==>
           r.pairs[j].questionId == db.pairs[j].questionId && r.pairs[j].matchId == db.pairs[j].matchId
  {
  }

  /** After an update of a question with the given type, a read under the same locale sees
      the payload's text, explanation and answer and the update's timestamp; for the
      types other than MATCH_THE_FOLLOWING the read always succeeds. */
  lemma UpdateThenRead(db: Db, t: QuestionType, qid: Id, locale: Option<Locale>, p: Payload, now: Stamp, supply: seq<Id>)
    requires Violations(t, p) == {} && |supply| >= UpdateIdsUsed(t, p) && Targets(db, qid, t)
    ensures var res := Update(db, t, qid, locale, p, now, supply).1;
      && (t != MatchTheFollowing ==> res.Success?)
      && (res.Success? ==>
            && res.value.Reread? && res.value.found.Some?
            && var v := res.value.found.value;
            && v.qtype == t && v.text == p.text && v.explanation == p.explanation
            && v.answer == p.answer && v.updatedAt == Some(now))
  {
    var db2 := WriteQuestion(db, t, qid, locale, p, now).value;
    var r := Update(db, t, qid, locale, p, now, supply);
    assert r.0 == Reconcile(db2, t, qid, locale, p, supply);
  }

  /** The row ids of question `qid` survive in place and no new row is added. */
  lemma IdSetOfExtends(a: seq<ChoiceRow>, b: seq<ChoiceRow>, locale: Option<Locale>, qid: Id, f: seq<Id>)
    requires Extends(a, b, locale, qid, f) && |a| == |b|
    ensures IdSetOf(b, qid) == IdSetOf(a, qid)
  {
    forall x | x in IdSetOf(a, qid) ensures x in IdSetOf(b, qid) {
      var i :| 0 <= i < |a| && a[i].questionId == qid && a[i].id == x;
      assert b[i].questionId == qid && b[i].id == x;
    }
    forall x | x in IdSetOf(b, qid) ensures x in IdSetOf(a, qid) {
      var i :| 0 <= i < |b| && b[i].questionId == qid && b[i].id == x;
      assert a[i].questionId == qid && a[i].id == x;
    }
  }

  /** Updating a choice question with a payload whose choices all carry ids leaves the
      question with exactly the row ids it had that the payload names (a row whose id is
      the question's own is never deleted): dropping a choice from the payload deletes it. */
  lemma UpdateRemovesChoices(db: Db, t: QuestionType, qid: Id, locale: Option<Locale>, p: Payload, now: Stamp, supply: seq<Id>)
    requires t == ChooseTheBest || t == MultiChoice
    requires Violations(t, p) == {} && WriteQuestion(db, t, qid, locale, p, now).Success?
    requires p.choices.Some? && NewCount(p.choices.value) == 0
    ensures var r := Update(db, t, qid, locale, p, now, supply).0;
      forall x :: x in IdSetOf(r.choices, qid) <==> x in IdSetOf(db.choices, qid) && (x in IdsIn(p.choices.value) || x == qid)
  {
    ValidIff(t, p);
    var cs := p.choices.value;
    var db2 := WriteQuestion(db, t, qid, locale, p, now).value;
    var r := Update(db, t, qid, locale, p, now, supply).0;
    assert r == Reconcile(db2, t, qid, locale, p, supply);
    var keep := KeptIds(t, cs, p);
    assert keep == IdsIn(cs) + [];
    assert UpdateIdsUsed(t, p) == 0;
    var d1 := Prune(db2, qid, keep);
    ReconcileExtends(db2, t, qid, locale, p, supply);
    IdSetOfExtends(d1.choices, r.choices, locale, qid, supply[..0]);
    PruneIdSet(db2, qid, keep);
  }

  /** The row ids of question `qid` the deletion step keeps. */
  lemma PruneIdSet(db: Db, qid: Id, keep: seq<Id>)
    requires keep != []
    ensures forall x :: x in IdSetOf(Prune(db, qid, keep).choices, qid) <==> x in IdSetOf(db.choices, qid) && (x in keep || x == qid)
  {
    var d1 := Prune(db, qid, keep);
    forall x ensures x in IdSetOf(d1.choices, qid) <==> x in IdSetOf(db.choices, qid) && (x in keep || x == qid) {
      if x in IdSetOf(d1.choices, qid) {
        var i :| 0 <= i < |d1.choices| && d1.choices[i].questionId == qid && d1.choices[i].id == x;
        assert d1.choices[i] in db.choices;
      }
      if x in IdSetOf(db.choices, qid) && (x in keep || x == qid) {
        var i :| 0 <= i < |db.choices| && db.choices[i].questionId == qid && db.choices[i].id == x;
        assert db.choices[i] in d1.choices;
      }
    }
  }

  /** Under a locale, an update whose id and type match no question row still inserts the
      question overlay, counts it, and reports a read instead of `null`. */
  lemma MismatchedLocaleUpdateWrites(db: Db, t: QuestionType, qid: Id, l: Locale, p: Payload, now: Stamp, supply: seq<Id>)
    requires Violations(t, p) == {} && |supply| >= UpdateIdsUsed(t, p)
    requires !Targets(db, qid, t) && (qid, l) !in db.questionTexts
    ensures var r := Update(db, t, qid, Some(l), p, now, supply);
      && r.1 != Success(Untouched)
      && (qid, l) in r.0.questionTexts && r.0.questionTexts[(qid, l)] == QuestionText(p.text, p.explanation)
  {
    var db2 := WriteQuestion(db, t, qid, Some(l), p, now).value;
    assert Update(db, t, qid, Some(l), p, now, supply).0 == Reconcile(db2, t, qid, Some(l), p, supply);
  }
}
