/** Updating a question: the base row, its overlay under a locale, then, for the choice
    types, a reconciliation of its choice rows (and for MATCH_THE_FOLLOWING its pairs)
    with the payload; then a read. */
module QuestionUpdate {
  import opened Wrappers
  import opened Common
  import opened Ids
  import opened Localization
  import opened Store
  import opened Validation
  import opened QuestionRead
  import opened QuestionCreate

  /** What `update` hands back when validation passes: `null` when the final row count is
      0, otherwise what `read` finds. */
  datatype Outcome = Untouched | Reread(found: Option<QuestionView>)

  /** The base-row `UPDATE ... WHERE id = ? AND type = ?` touches a row. */
  predicate Targets(db: Db, qid: Id, t: QuestionType) {
    qid in db.questions && db.questions[qid].qtype == t
  }

  /** The base-row write: without a locale text, explanation, answer and modifiedAt; with
      one only answer and modifiedAt. No row changes when the id and type do not match. */
  function WriteBase(db: Db, qid: Id, t: QuestionType, locale: Option<Locale>, p: Payload, now: Stamp): (r: Db)
    ensures r == db.(questions := r.questions)
    ensures r.questions.Keys == db.questions.Keys
    ensures forall k :: k in db.questions && k != qid ==> r.questions[k] == db.questions[k]
    ensures !Targets(db, qid, t) ==> r == db
    ensures Targets(db, qid, t) ==>
      && r.questions[qid].answer == p.answer && r.questions[qid].modifiedAt == Some(now)
      && r.questions[qid].id == db.questions[qid].id && r.questions[qid].qtype == t
      && r.questions[qid].createdBy == db.questions[qid].createdBy
      && r.questions[qid].createdAt == db.questions[qid].createdAt
      && r.questions[qid].text == (if locale.None? then p.text else db.questions[qid].text)
      && r.questions[qid].explanation == (if locale.None? then p.explanation else db.questions[qid].explanation)
  {
    if !Targets(db, qid, t) then db
    else
      var row := db.questions[qid];
      var row' := if locale.None? then row.(text := p.text, explanation := p.explanation, answer := p.answer, modifiedAt := Some(now))
                  else row.(answer := p.answer, modifiedAt := Some(now));
      db.(questions := db.questions[qid := row'])
  }

  /** The ids the payload's choices (and, for MATCH_THE_FOLLOWING, its matches) carry. */
  function IdsIn(cs: seq<Choice>): (r: seq<Id>)
    ensures forall x :: x in r <==> exists i :: 0 <= i < |cs| && cs[i].id == Some(x)
    ensures |r| == |cs| - NewCount(cs)
  {
    if cs == [] then []
    else
      assert forall i :: 1 <= i < |cs| ==> cs[i] == cs[1..][i - 1];
      (if cs[0].id.Some? then [cs[0].id.value] else []) + IdsIn(cs[1..])
  }

  /** How many items carry no id, that is how many rows the update creates for them. */
  function NewCount(cs: seq<Choice>): (n: nat)
    ensures n <= |cs|
  {
    if cs == [] then 0 else (if cs[0].id.None? then 1 else 0) + NewCount(cs[1..])
  }

  /** `availableIds`. */
  function KeptIds(t: QuestionType, cs: seq<Choice>, p: Payload): seq<Id> {
    IdsIn(cs) + (if t == MatchTheFollowing then IdsIn(Items(p.matches)) else [])
  }

  /** The rows the choice `DELETE ... WHERE question_id = ? AND id NOT IN (id, ids)` keeps. */
  function KeepRows(rows: seq<ChoiceRow>, qid: Id, keep: seq<Id>): (r: seq<ChoiceRow>)
    ensures forall x :: x in r <==> x in rows && !(x.questionId == qid && x.id !in keep && x.id != qid)
    ensures |r| <= |rows|
  {
    if rows == [] then []
    else
      var x := rows[0];
      (if x.questionId == qid && x.id !in keep && x.id != qid then [] else [x]) + KeepRows(rows[1..], qid, keep)
  }

  /** The choice ids whose overlays the first `DELETE` removes: the question's rows whose
      id is not kept. */
  function Dropped(rows: seq<ChoiceRow>, qid: Id, keep: seq<Id>): set<Id> {
    set i | 0 <= i < |rows| && rows[i].questionId == qid && rows[i].id !in keep :: rows[i].id
  }

  /** The deletion step of the reconciliation; it only runs when some item carries an id. */
  function Prune(db: Db, qid: Id, keep: seq<Id>): (r: Db)
    ensures r == db.(choices := r.choices, choiceTexts := r.choiceTexts)
    ensures keep == [] ==> r == db
    ensures keep != [] ==>
      && (forall x :: x in r.choices <==> x in db.choices && !(x.questionId == qid && x.id !in keep && x.id != qid))
      && (forall k :: k in r.choiceTexts <==> k in db.choiceTexts && k.0 !in Dropped(db.choices, qid, keep))
    ensures forall x :: x in r.choices ==> x in db.choices
  {
    if keep == [] then db
    else db.(choiceTexts := DropKeys(db.choiceTexts, Dropped(db.choices, qid, keep)),
             choices := KeepRows(db.choices, qid, keep))
  }

  /** `updateChoice` on one row with the item's id: without a locale value and flag, with
      one the flag only (the value goes to the overlay). A null flag is written as NULL. */
  function Patch(r: ChoiceRow, c: Choice, locale: Option<Locale>): ChoiceRow {
    if locale.None? then r.(cValue := c.cValue, isAnswer := c.isAnswer) else r.(isAnswer := c.isAnswer)
  }

  function PatchRows(rows: seq<ChoiceRow>, cid: Id, c: Choice, locale: Option<Locale>): (r: seq<ChoiceRow>)
    ensures |r| == |rows|
    ensures forall i :: 0 <= i < |rows| ==> r[i] == if rows[i].id == cid then Patch(rows[i], c, locale) else rows[i]
  {
    seq(|rows|, i requires 0 <= i < |rows| => if rows[i].id == cid then Patch(rows[i], c, locale) else rows[i])
  }

  /** `updateChoice(choice, locale)`: every row with the id (of any question) is patched;
      under a locale `saveLocalizedChoice` updates the overlay, or inserts it when the
      update touched no row, which leaves the overlay holding the value either way. */
  function UpdateChoice(db: Db, cid: Id, c: Choice, locale: Option<Locale>): (r: Db)
    ensures r == db.(choices := r.choices, choiceTexts := r.choiceTexts)
    ensures |r.choices| == |db.choices|
    ensures forall i :: 0 <= i < |db.choices| ==>
      && r.choices[i].id == db.choices[i].id && r.choices[i].questionId == db.choices[i].questionId
      && (r.choices[i].id == cid ==> r.choices[i].isAnswer == c.isAnswer)
      && (r.choices[i].id != cid ==> r.choices[i] == db.choices[i])
      && r.choices[i].cValue == (if locale.None? && db.choices[i].id == cid then c.cValue else db.choices[i].cValue)
    ensures locale.None? ==> r.choiceTexts == db.choiceTexts
    ensures locale.Some? ==>
      && (cid, locale.value) in r.choiceTexts && r.choiceTexts[(cid, locale.value)] == c.cValue
      && (forall k :: k != (cid, locale.value) ==> (k in r.choiceTexts <==> k in db.choiceTexts))
      && (forall k :: k in db.choiceTexts && k != (cid, locale.value) ==> k in r.choiceTexts && r.choiceTexts[k] == db.choiceTexts[k])
  {
    db.(choices := PatchRows(db.choices, cid, c, locale),
        choiceTexts := if locale.Some? then db.choiceTexts[(cid, locale.value) := c.cValue] else db.choiceTexts)
  }

  /** The rows of a table keep their ids, owners and (under a locale) values, position by
      position, and rows appended after them carry ids from `newIds` and the owner `qid`. */
  ghost predicate Extends(before: seq<ChoiceRow>, after: seq<ChoiceRow>, locale: Option<Locale>,
                          qid: Id, newIds: seq<Id>) {
    && |before| <= |after|
    && (forall i :: 0 <= i < |before| ==>
          && after[i].id == before[i].id && after[i].questionId == before[i].questionId
          && (locale.Some? ==> after[i].cValue == before[i].cValue))
    && (forall i :: |before| <= i < |after| ==> after[i].id in newIds && after[i].questionId == qid)
  }

  lemma ExtendsTrans(a: seq<ChoiceRow>, b: seq<ChoiceRow>, c: seq<ChoiceRow>, locale: Option<Locale>, qid: Id,
                     f1: seq<Id>, f2: seq<Id>, f: seq<Id>)
    requires Extends(a, b, locale, qid, f1) && Extends(b, c, locale, qid, f2)
    requires forall x :: x in f1 ==> x in f
    requires forall x :: x in f2 ==> x in f
    ensures Extends(a, c, locale, qid, f)
  {
  }

  lemma ExtendsAppend(before: seq<ChoiceRow>, row: ChoiceRow, locale: Option<Locale>, qid: Id, newIds: seq<Id>)
    requires row.id in newIds && row.questionId == qid
    ensures Extends(before, before + [row], locale, qid, newIds)
  {
  }

  lemma ExtendsPatch(before: seq<ChoiceRow>, after: seq<ChoiceRow>, locale: Option<Locale>, qid: Id)
    requires |before| == |after|
    requires forall i :: 0 <= i < |before| ==>
      && after[i].id == before[i].id && after[i].questionId == before[i].questionId
      && (locale.Some? ==> after[i].cValue == before[i].cValue)
    ensures Extends(before, after, locale, qid, [])
  {
  }

  /** Ids taken from the front of the supply: the first, then the rest. */
  lemma NewIdsStep(supply: seq<Id>, n: nat)
    requires 1 <= n <= |supply|
    ensures supply[0] in supply[..n]
    ensures forall x :: x in supply[1..][..n - 1] ==> x in supply[..n]
  {
    assert supply[1..][..n - 1] == supply[1..n];
  }

  /** The loop over the payload's choices: create the ones without an id, update the rest. */
  function ApplyChoices(db: Db, cs: seq<Choice>, locale: Option<Locale>, qid: Id, supply: seq<Id>): (r: Db)
    requires |supply| >= NewCount(cs)
    ensures r == db.(choices := r.choices, choiceTexts := r.choiceTexts)
    ensures |r.choices| == |db.choices| + NewCount(cs)
    ensures Extends(db.choices, r.choices, locale, qid, supply[..NewCount(cs)])
    ensures IdsIn(cs) == [] ==>
      r.choices[..|db.choices|] == db.choices && forall k :: k in db.choiceTexts ==> k in r.choiceTexts
    ensures forall k :: k in r.choiceTexts ==> k in db.choiceTexts || k.0 in IdsIn(cs) || k.0 in supply[..NewCount(cs)]
    decreases |cs|
  {
    if cs == [] then db
    else if cs[0].id.None? then
      var row := NewRow(cs[0], qid, supply[0]);
      var d := InsertChoice(db, row, locale);
      var r := ApplyChoices(d, cs[1..], locale, qid, supply[1..]);
      NewIdsStep(supply, NewCount(cs));
      ExtendsAppend(db.choices, row, locale, qid, supply[..NewCount(cs)]);
      ExtendsTrans(db.choices, d.choices, r.choices, locale, qid, supply[..NewCount(cs)],
                   supply[1..][..NewCount(cs[1..])], supply[..NewCount(cs)]);
      r
    else
      var d := UpdateChoice(db, cs[0].id.value, cs[0], locale);
      var r := ApplyChoices(d, cs[1..], locale, qid, supply);
      ExtendsPatch(db.choices, d.choices, locale, qid);
      ExtendsTrans(db.choices, d.choices, r.choices, locale, qid, [],
                   supply[..NewCount(cs[1..])], supply[..NewCount(cs)]);
      r
  }

  /** `updateMatch(questionId, choiceId, matchId)`: the question's pairs with that match
      id get the choice id. */
  function UpdateMatch(pairs: seq<PairRow>, qid: Id, choiceId: Option<Id>, mid: Id): (r: seq<PairRow>)
    ensures |r| == |pairs|
    ensures forall i :: 0 <= i < |pairs| ==> r[i].questionId == pairs[i].questionId && r[i].matchId == pairs[i].matchId
    ensures forall i :: 0 <= i < |pairs| && (pairs[i].questionId != qid || pairs[i].matchId != Some(mid)) ==> r[i] == pairs[i]
    ensures forall i :: 0 <= i < |pairs| && pairs[i].questionId == qid && pairs[i].matchId == Some(mid) ==>
      r[i].choiceId == choiceId
  {
    seq(|pairs|, i requires 0 <= i < |pairs| =>
      if pairs[i].questionId == qid && pairs[i].matchId == Some(mid) then pairs[i].(choiceId := choiceId) else pairs[i])
  }

  /** `updateMatch` touches one question's pairs only: every other question keeps its pair
      rows, in order. */
  lemma {:induction false} UpdateMatchKeepsOthers(pairs: seq<PairRow>, qid: Id, choiceId: Option<Id>, mid: Id, q: Id)
    requires q != qid
    ensures PairsOf(UpdateMatch(pairs, qid, choiceId, mid), q) == PairsOf(pairs, q)
  {
    if pairs != [] {
      var r := UpdateMatch(pairs, qid, choiceId, mid);
      assert r == [r[0]] + r[1..] && pairs == [pairs[0]] + pairs[1..];
      assert r[1..] == UpdateMatch(pairs[1..], qid, choiceId, mid);
      UpdateMatchKeepsOthers(pairs[1..], qid, choiceId, mid, q);
      PairsOfAppend([r[0]], r[1..], q);
      PairsOfAppend([pairs[0]], pairs[1..], q);
    }
  }

  /** The payload choice id the i-th match is paired with: the id the i-th payload choice
      carried in the request, which is null for a choice the update has just created. */
  function PartnerOf(cs: seq<Choice>, i: nat): Option<Id> {
    if i < |cs| then cs[i].id else None
  }

  /** The loop over the payload's matches, `i` being the index of `ms[0]`. */
  function ApplyMatches(db: Db, ms: seq<Choice>, cs: seq<Choice>, i: nat, locale: Option<Locale>,
                        qid: Id, supply: seq<Id>): (r: Db)
    requires |supply| >= NewCount(ms)
    ensures r == db.(choices := r.choices, choiceTexts := r.choiceTexts, pairs := r.pairs)
    ensures |r.choices| == |db.choices| + NewCount(ms)
    ensures Extends(db.choices, r.choices, locale, qid, supply[..NewCount(ms)])
    ensures |r.pairs| == |db.pairs| + NewCount(ms)
    ensures forall j :: 0 <= j < |db.pairs| ==>
      r.pairs[j].questionId == db.pairs[j].questionId && r.pairs[j].matchId == db.pairs[j].matchId
    ensures IdsIn(ms) == [] ==>
      r.choices[..|db.choices|] == db.choices && forall k :: k in db.choiceTexts ==> k in r.choiceTexts
    ensures forall k :: k in r.choiceTexts ==> k in db.choiceTexts || k.0 in IdsIn(ms) || k.0 in supply[..NewCount(ms)]
    decreases |ms|
  {
    if ms == [] then db
    else if ms[0].id.None? then
      var row := NewRow(ms[0], qid, supply[0]);
      var d := InsertChoice(db, row, locale);
      var d' := d.(pairs := d.pairs + [PairRow(qid, PartnerOf(cs, i), Some(supply[0]))]);
      var r := ApplyMatches(d', ms[1..], cs, i + 1, locale, qid, supply[1..]);
      NewIdsStep(supply, NewCount(ms));
      ExtendsAppend(db.choices, row, locale, qid, supply[..NewCount(ms)]);
      ExtendsTrans(db.choices, d.choices, r.choices, locale, qid, supply[..NewCount(ms)],
                   supply[1..][..NewCount(ms[1..])], supply[..NewCount(ms)]);
      r
    else
      var mid := ms[0].id.value;
      var d := UpdateChoice(db, mid, ms[0], locale);
      var d' := d.(pairs := UpdateMatch(d.pairs, qid, PartnerOf(cs, i), mid));
      var r := ApplyMatches(d', ms[1..], cs, i + 1, locale, qid, supply);
      ExtendsPatch(db.choices, d.choices, locale, qid);
      ExtendsTrans(db.choices, d.choices, r.choices, locale, qid, [],
                   supply[..NewCount(ms[1..])], supply[..NewCount(ms)]);
      r
  }

  /** How many fresh ids an update consumes. */
  function UpdateIdsUsed(t: QuestionType, p: Payload): nat {
    if HasChoices(t) && p.choices.Some? then
      NewCount(p.choices.value) + (if t == MatchTheFollowing && p.matches.Some? then NewCount(p.matches.value) else 0)
    else 0
  }

  /** The reconciliation, which runs only for the choice types with a non-null choice list. */
  function Reconcile(db: Db, t: QuestionType, qid: Id, locale: Option<Locale>, p: Payload, supply: seq<Id>): (r: Db)
    requires |supply| >= UpdateIdsUsed(t, p)
    ensures r == db.(choices := r.choices, choiceTexts := r.choiceTexts, pairs := r.pairs)
    ensures |db.pairs| <= |r.pairs|
    ensures forall j :: 0 <= j < |db.pairs| ==>
      r.pairs[j].questionId == db.pairs[j].questionId && r.pairs[j].matchId == db.pairs[j].matchId
  {
    if !(HasChoices(t) && p.choices.Some?) then db
    else
      var cs := p.choices.value;
      var d1 := Prune(db, qid, KeptIds(t, cs, p));
      var d2 := ApplyChoices(d1, cs, locale, qid, supply);
      if t == MatchTheFollowing && p.matches.Some? then
        ApplyMatches(d2, p.matches.value, cs, 0, locale, qid, supply[NewCount(cs)..])
      else d2
  }

  /** The question's own writes: the base row, then under a locale its overlay, updated
      when the question row has the type and inserted otherwise. The insert fails on an
      existing overlay. */
  function WriteQuestion(db: Db, t: QuestionType, qid: Id, locale: Option<Locale>, p: Payload, now: Stamp): (r: Result<Db, Error>)
    ensures r.Failure? <==> locale.Some? && (qid, locale.value) in db.questionTexts && !Targets(db, qid, t)
    ensures r.Failure? ==> r.error == SqlError
    ensures r.Success? ==>
      && r.value == db.(questions := r.value.questions, questionTexts := r.value.questionTexts)
      && r.value.questions.Keys == db.questions.Keys
      && (locale.None? ==> r.value.questionTexts == db.questionTexts)
      && (locale.Some? ==> r.value.questionTexts == db.questionTexts[(qid, locale.value) := QuestionText(p.text, p.explanation)])
  {
    var db1 := WriteBase(db, qid, t, locale, p, now);
    if locale.Some? && (qid, locale.value) in db1.questionTexts && !Targets(db1, qid, t) then Failure(SqlError)
    else if locale.Some? then Success(db1.(questionTexts := db1.questionTexts[(qid, locale.value) := QuestionText(p.text, p.explanation)]))
    else Success(db1)
  }

  /** `update(type, id, locale, question)`. Violations are reported with nothing written.
      Otherwise the writes happen in order and are kept even when a later step fails; the
      result is `null` when the final row count is 0, which without a locale means the id
      and type matched no row, and which never happens with a locale: the count is then
      the overlay write's, and the overlay is inserted when its update touched no row.
      That insert fails on an existing overlay of a question whose type does not match. */
  function Update(db: Db, t: QuestionType, qid: Id, locale: Option<Locale>, p: Payload, now: Stamp,
                  supply: seq<Id>): (r: (Db, Result<Outcome, Error>))
    requires |supply| >= UpdateIdsUsed(t, p)
    ensures Violations(t, p) != {} ==> r == (db, Failure(Invalid(Violations(t, p))))
    ensures Violations(t, p) == {} ==>
      && (r.1 == Success(Untouched) <==> locale.None? && !Targets(db, qid, t))
      && (WriteQuestion(db, t, qid, locale, p, now).Failure? ==> r == (WriteBase(db, qid, t, locale, p, now), Failure(SqlError)))
      && (r.1.Success? && r.1.value.Reread? ==> Read(r.0, qid, locale) == Success(r.1.value.found))
      && (WriteQuestion(db, t, qid, locale, p, now).Success? ==>
            r.0 == Reconcile(WriteQuestion(db, t, qid, locale, p, now).value, t, qid, locale, p, supply))
  {
    var v := Violations(t, p);
    if v != {} then (db, Failure(Invalid(v)))
    else
      match WriteQuestion(db, t, qid, locale, p, now)
      case Failure(e) => (WriteBase(db, qid, t, locale, p, now), Failure(e))
      case Success(db2) =>
        var db3 := Reconcile(db2, t, qid, locale, p, supply);
        if locale.None? && !Targets(db, qid, t) then (db3, Success(Untouched))
        else
          match Read(db3, qid, locale)
          case Success(found) => (db3, Success(Reread(found)))
          case Failure(e) => (db3, Failure(e))
  }

  /** `update` as its `null` result evidently means it: a request whose id and type match
      no question row writes nothing and reports `null`, with or without a locale. */
  function UpdateChecked(db: Db, t: QuestionType, qid: Id, locale: Option<Locale>, p: Payload, now: Stamp,
                         supply: seq<Id>): (r: (Db, Result<Outcome, Error>))
    requires |supply| >= UpdateIdsUsed(t, p)
    ensures Violations(t, p) != {} ==> r == (db, Failure(Invalid(Violations(t, p))))
    ensures Violations(t, p) == {} ==>
      && (r.1 == Success(Untouched) <==> !Targets(db, qid, t))
      && (!Targets(db, qid, t) ==> r.0 == db)
    ensures Targets(db, qid, t) ==> r == Update(db, t, qid, locale, p, now, supply)
  {
    if Violations(t, p) == {} && !Targets(db, qid, t) then (db, Success(Untouched))
    else Update(db, t, qid, locale, p, now, supply)
  }
}
