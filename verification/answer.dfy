/** Grading a submitted answer against a question read without a locale. */
module Answer {
  import opened Wrappers
  import opened Common
  import opened Ids
  import opened Store
  import opened QuestionRead

  /** `stream().filter(QuestionChoice::getIsAnswer).findFirst()`: the rows are examined in
      order up to the first flagged one, and unboxing a NULL flag on the way throws. */
  function FirstFlagged(cs: seq<ChoiceRow>): (r: Result<Option<ChoiceRow>, Error>)
    ensures r == Success(None) <==> forall i :: 0 <= i < |cs| ==> cs[i].isAnswer == Some(false)
    ensures r.Success? && r.value.Some? ==> exists i ::
      0 <= i < |cs| && cs[i] == r.value.value && cs[i].isAnswer == Some(true) &&
      forall j :: 0 <= j < i ==> cs[j].isAnswer == Some(false)
    ensures r.Failure? ==> r.error == NullPointer
    ensures r.Failure? ==> exists i ::
      0 <= i < |cs| && cs[i].isAnswer.None? && forall j :: 0 <= j < i ==> cs[j].isAnswer == Some(false)
  {
    if cs == [] then Success(None)
    else
      assert forall i :: 1 <= i < |cs| ==> cs[i] == cs[1..][i - 1];
      match cs[0].isAnswer
      case None => Failure(NullPointer)
      case Some(true) => Success(Some(cs[0]))
      case Some(false) => FirstFlagged(cs[1..])
  }

  /** The rows whose flag is set. */
  predicate Flagged(c: ChoiceRow) {
    c.isAnswer == Some(true)
  }

  /** `stream().filter(QuestionChoice::getIsAnswer).map(id).toList()`: every flag is
      unboxed, so any NULL flag throws; otherwise the flagged rows' ids in order. */
  function FlaggedIds(cs: seq<ChoiceRow>): (r: Result<seq<Id>, Error>)
    ensures r.Failure? <==> exists i :: 0 <= i < |cs| && cs[i].isAnswer.None?
    ensures r.Failure? ==> r.error == NullPointer
    ensures r.Success? ==> forall x :: x in r.value <==> exists i :: 0 <= i < |cs| && Flagged(cs[i]) && cs[i].id == x
    ensures r.Success? ==> |r.value| <= |cs|
  {
    if cs == [] then Success([])
    else
      assert forall i :: 1 <= i < |cs| ==> cs[i] == cs[1..][i - 1];
      if cs[0].isAnswer.None? then Failure(NullPointer)
      else
        var rest :- FlaggedIds(cs[1..]);
        Success((if Flagged(cs[0]) then [cs[0].id] else []) + rest)
  }

  /** `Set.of(pieces)`: the pieces as a set, or an exception when one repeats. */
  function SetOf(xs: seq<string>): (r: Result<set<string>, Error>)
    ensures r.Failure? <==> !Distinct(xs)
    ensures r.Failure? ==> r.error == DuplicateElement
    ensures r.Success? ==> |r.value| == |xs| && forall x :: x in r.value <==> x in xs
  {
    DistinctCount(xs);
    if Distinct(xs) then Success(set x | x in xs) else Failure(DuplicateElement)
  }

  /** The ids a MATCH_THE_FOLLOWING submission may use: every choice's, then the first
      as many matches' as there are choices (`subList(0, choices.size())`). */
  function ValidIds(choices: seq<ChoiceRow>, matches: seq<ChoiceRow>): (r: Result<seq<Id>, Error>)
    ensures r.Failure? <==> |matches| < |choices|
    ensures r.Failure? ==> r.error == IndexOutOfBounds
    ensures r.Success? ==> |r.value| == 2 * |choices|
    ensures r.Success? ==> forall x :: x in r.value <==>
      exists i :: 0 <= i < |choices| && (choices[i].id == x || matches[i].id == x)
  {
    if |matches| < |choices| then Failure(IndexOutOfBounds)
    else
      var r := IdsOf(choices + matches[..|choices|]);
      assert forall x :: x in r <==> exists k :: 0 <= k < |r| && r[k] == x;
      forall x | x in r
        ensures exists i :: 0 <= i < |choices| && (choices[i].id == x || matches[i].id == x)
      {
        var k :| 0 <= k < |r| && r[k] == x;
        if k >= |choices| {
          assert r[k] == matches[k - |choices|].id;
        }
      }
      forall x | exists i :: 0 <= i < |choices| && (choices[i].id == x || matches[i].id == x)
        ensures x in r
      {
        var i :| 0 <= i < |choices| && (choices[i].id == x || matches[i].id == x);
        if choices[i].id == x {
          assert r[i] == x;
        } else {
          assert r[|choices| + i] == x;
        }
      }
      Success(r)
  }

  /** The MULTI_CHOICE case: a NULL flag throws while the flagged ids are collected; with
      none flagged the answer is wrong without looking at it; otherwise a repeated piece of
      the submission throws in `Set.of`. */
  function GradeMultiChoice(cs: seq<ChoiceRow>, submitted: string): (r: Result<bool, Error>)
    ensures r.Failure? <==> !AllFlagged(cs) || (AnyFlagged(cs) && !Distinct(Split(submitted)))
    ensures r.Failure? ==> r.error == (if AllFlagged(cs) then DuplicateElement else NullPointer)
    ensures !AnyFlagged(cs) && AllFlagged(cs) ==> r == Success(false)
  {
    var right :- FlaggedIds(cs);
    assert AnyFlagged(cs) <==> right != [] by {
      if AnyFlagged(cs) {
        var i :| 0 <= i < |cs| && Flagged(cs[i]);
        assert cs[i].id in right;
      }
      if right != [] {
        assert right[0] in right;
      }
    }
    if right == [] then Success(false)
    else
      var given :- SetOf(Split(submitted));
      Success(|given| == |right| && forall x :: x in right ==> x in given)
  }

  /** The grading switch over a read question. A list the grading needs but the read left
      NULL throws as `getChoices().stream()` would. */
  function GradeView(v: QuestionView, submitted: string): (r: Result<bool, Error>)
    ensures v.qtype == SingleLine ==> r == Success(false)
    ensures v.qtype != SingleLine && v.choices.None? ==> r == Failure(NullPointer)
    ensures v.qtype == MatchTheFollowing && v.matches.None? ==> r == Failure(NullPointer)
    ensures v.qtype == MatchTheFollowing && v.choices.Some? && v.matches.Some? ==>
      (r.Failure? <==> |v.matches.value| < |v.choices.value|) && (r.Failure? ==> r.error == IndexOutOfBounds)
    ensures v.qtype == ChooseTheBest && v.choices.Some? ==>
      (r.Failure? ==> r.error == NullPointer) && (AllFlagged(v.choices.value) ==> r.Success?)
    ensures v.qtype == MultiChoice && v.choices.Some? ==> r == GradeMultiChoice(v.choices.value, submitted)
  {
    match v.qtype
    case ChooseTheBest =>
      if v.choices.None? then Failure(NullPointer)
      else
        var right :- FirstFlagged(v.choices.value);
        Success(right.Some? && right.value.id == submitted)
    case MultiChoice =>
      if v.choices.None? then Failure(NullPointer) else GradeMultiChoice(v.choices.value, submitted)
    case MatchTheFollowing =>
      if v.choices.None? || v.matches.None? then Failure(NullPointer)
      else
        var valid :- ValidIds(v.choices.value, v.matches.value);
        if valid == [] then Success(false)
        else Success(forall x :: x in Split(submitted) ==> x in valid)
    case SingleLine => Success(false)
  }

  /** `answer(questionId, answer)`: false for an unknown id, otherwise the grade of the
      question read without a locale; a failing read fails the grading. */
  function Grade(db: Db, qid: Id, submitted: string): (r: Result<bool, Error>)
    ensures qid !in db.questions ==> r == Success(false)
    ensures qid in db.questions && db.questions[qid].qtype == SingleLine ==> r == Success(false)
    ensures Read(db, qid, None).Failure? ==> r.Failure? && r.error == Read(db, qid, None).error
    ensures Read(db, qid, None).Success? && Read(db, qid, None).value.Some? ==>
      r == GradeView(Read(db, qid, None).value.value, submitted)
  {
    var q :- Read(db, qid, None);
    if q.None? then Success(false) else GradeView(q.value, submitted)
  }

  /** Some row's flag is set. */
  predicate AnyFlagged(cs: seq<ChoiceRow>) {
    exists i :: 0 <= i < |cs| && Flagged(cs[i])
  }

  /** Every flag of the rows is set one way or the other. */
  predicate AllFlagged(cs: seq<ChoiceRow>) {
    forall i :: 0 <= i < |cs| ==> cs[i].isAnswer.Some?
  }

  /** CHOOSE_THE_BEST: right exactly when the submission is the id of the first flagged
      choice, and wrong whatever is submitted when no choice is flagged. */
  lemma ChooseTheBestIff(v: QuestionView, submitted: string)
    requires v.qtype == ChooseTheBest && v.choices.Some? && AllFlagged(v.choices.value)
    ensures var cs := v.choices.value;
      && GradeView(v, submitted).Success?
      && (GradeView(v, submitted).value <==>
            exists i :: 0 <= i < |cs| && Flagged(cs[i]) && cs[i].id == submitted &&
              forall j :: 0 <= j < i ==> !Flagged(cs[j]))
  {
    var cs := v.choices.value;
    var right := FirstFlagged(cs);
    if right.Success? && right.value.Some? {
      var i :| 0 <= i < |cs| && cs[i] == right.value.value && Flagged(cs[i]) &&
        forall j :: 0 <= j < i ==> cs[j].isAnswer == Some(false);
    }
  }

  /** A CHOOSE_THE_BEST question with a flagged choice grades exactly the first flagged
      choice's id as right. */
  lemma ChooseTheBestFirst(v: QuestionView, submitted: string)
    requires v.qtype == ChooseTheBest && v.choices.Some? && AllFlagged(v.choices.value)
    requires exists i :: 0 <= i < |v.choices.value| && Flagged(v.choices.value[i])
    ensures FirstFlagged(v.choices.value).Success? && FirstFlagged(v.choices.value).value.Some?
    ensures GradeView(v, submitted) == Success(submitted == FirstFlagged(v.choices.value).value.value.id)
  {
    var cs := v.choices.value;
    var i :| 0 <= i < |cs| && Flagged(cs[i]);
    assert cs[i].isAnswer != Some(false);
  }

  /** The ids of the flagged rows. */
  function FlaggedSet(cs: seq<ChoiceRow>): set<Id> {
    set i | 0 <= i < |cs| && Flagged(cs[i]) :: cs[i].id
  }

  /** With distinct choice ids, the flagged ids are as many as their set. */
  lemma FlaggedCount(cs: seq<ChoiceRow>)
    requires AllFlagged(cs) && Distinct(IdsOf(cs))
    ensures FlaggedIds(cs).Success?
    ensures (set x | x in FlaggedIds(cs).value) == FlaggedSet(cs)
    ensures |FlaggedSet(cs)| == |FlaggedIds(cs).value|
    ensures FlaggedIds(cs).value == [] <==> forall i :: 0 <= i < |cs| ==> !Flagged(cs[i])
  {
    var right := FlaggedIds(cs).value;
    FlaggedIdsDistinct(cs);
    DistinctCount(right);
    if exists i :: 0 <= i < |cs| && Flagged(cs[i]) {
      var i :| 0 <= i < |cs| && Flagged(cs[i]);
      assert cs[i].id in right;
    }
  }

  /** A multi-choice grading given the flagged ids: right exactly when the distinct pieces
      are, as a set, those ids. */
  lemma SameAsFlagged(given: set<string>, right: seq<Id>, flagged: set<Id>)
    requires (set x | x in right) == flagged && |flagged| == |right|
    ensures (|given| == |right| && forall x :: x in right ==> x in given) <==> given == flagged
  {
    if |given| == |right| && forall x :: x in right ==> x in given {
      SameSizeSubset(flagged, given);
    }
  }

  /** MULTI_CHOICE with at least one flagged choice and distinct choice ids: right exactly
      when the submitted pieces are, as a set, the flagged ids; a repeated piece throws. */
  lemma MultiChoiceIff(v: QuestionView, submitted: string)
    requires v.qtype == MultiChoice && v.choices.Some? && AllFlagged(v.choices.value)
    requires Distinct(IdsOf(v.choices.value))
    requires exists i :: 0 <= i < |v.choices.value| && Flagged(v.choices.value[i])
    ensures !Distinct(Split(submitted)) ==> GradeView(v, submitted) == Failure(DuplicateElement)
    ensures Distinct(Split(submitted)) ==>
      GradeView(v, submitted) == Success((set x | x in Split(submitted)) == FlaggedSet(v.choices.value))
  {
    var cs := v.choices.value;
    FlaggedCount(cs);
    var right := FlaggedIds(cs).value;
    var pieces := Split(submitted);
    if Distinct(pieces) {
      SameAsFlagged(SetOf(pieces).value, right, FlaggedSet(cs));
    }
  }

  /** With distinct choice ids the flagged ids are distinct too. */
  lemma {:induction false} FlaggedIdsDistinct(cs: seq<ChoiceRow>)
    requires AllFlagged(cs) && Distinct(IdsOf(cs))
    ensures FlaggedIds(cs).Success? && Distinct(FlaggedIds(cs).value)
  {
    if cs != [] {
      var rest := cs[1..];
      assert IdsOf(rest) == IdsOf(cs)[1..];
      FlaggedIdsDistinct(rest);
      if Flagged(cs[0]) {
        var tail := FlaggedIds(rest).value;
        forall k | 0 <= k < |tail|
          ensures tail[k] != cs[0].id
        {
          assert tail[k] in tail;
          var i :| 0 <= i < |rest| && Flagged(rest[i]) && rest[i].id == tail[k];
          assert IdsOf(cs)[i + 1] == tail[k];
        }
      }
    }
  }

  /** Submitting the flagged ids of a MULTI_CHOICE question joined by commas is right. */
  lemma MultiChoiceAcceptsJoined(v: QuestionView)
    requires v.qtype == MultiChoice && v.choices.Some? && AllFlagged(v.choices.value)
    requires Distinct(IdsOf(v.choices.value))
    requires exists i :: 0 <= i < |v.choices.value| && Flagged(v.choices.value[i])
    ensures GradeView(v, Join(FlaggedIds(v.choices.value).value)) == Success(true)
  {
    var cs := v.choices.value;
    var right := FlaggedIds(cs).value;
    assert right != [] by {
      var i :| 0 <= i < |cs| && Flagged(cs[i]);
      assert cs[i].id in right;
    }
    SplitJoinIds(right);
    FlaggedIdsDistinct(cs);
    MultiChoiceIff(v, Join(right));
  }

  /** MATCH_THE_FOLLOWING with at least as many matches as choices: right exactly when
      every submitted piece is the id of a choice or of one of the first matches, in any
      order and any number; a distractor's id makes it wrong. */
  lemma MatchIff(v: QuestionView, submitted: string)
    requires v.qtype == MatchTheFollowing && v.choices.Some? && v.matches.Some?
    requires |v.choices.value| <= |v.matches.value|
    ensures var cs := v.choices.value;
      var ms := v.matches.value;
      && (cs == [] ==> GradeView(v, submitted) == Success(false))
      && (cs != [] ==> GradeView(v, submitted) == Success(
            forall x :: x in Split(submitted) ==>
              exists i :: 0 <= i < |cs| && (cs[i].id == x || ms[i].id == x)))
  {
  }

  /** A MATCH_THE_FOLLOWING question read with fewer matches than choices cannot be
      graded. */
  lemma MatchShortFails(v: QuestionView, submitted: string)
    requires v.qtype == MatchTheFollowing && v.choices.Some? && v.matches.Some?
    requires |v.matches.value| < |v.choices.value|
    ensures GradeView(v, submitted) == Failure(IndexOutOfBounds)
  {
  }
}
